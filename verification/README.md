# Counting semaphores of the MiniOS user-level concurrency support

This project models `Usercode/Concurrency/semaphore.c`. That file holds a fixed table of `MAX_SEMS` (10) counting semaphores. Each semaphore has an id, a `uint32_t` count and a FIFO queue of blocked thread handles. The high-water mark `gSemcount` hands out slots in order. There are four operations:

- `semaphore_create` consumes the next slot. It sets the count to `MAX_SEMS` for `FULL` and to 0 otherwise, and sets up an empty queue.
- `semaphore_take` decrements a positive count. Otherwise it enqueues the running thread and blocks it.
- `semaphore_give` unblocks the head of the queue, if there is one. In every case it then sets the count to `(count + 1) % MAX_SEMS`.
- `semaphore_delete` refuses with `-1` (as `uint32_t`) while threads wait. Otherwise it invalidates the slot's id and frees the queue. The slot is never handed out again.

Take, give and delete do their state changes between `ATOMIC_START` and `ATOMIC_END`. Take calls `scheduler_blockThread` only after `ATOMIC_END`. Create has no guard at all. Each operation is nevertheless modelled as one pure transition from a `Table` (`gSemcount` plus the slots) to a new `Table` and an observable outcome:

- `Acquired` or `Blocked(thread)` for take;
- `Unblocked(thread)` or `NoWake` for give;
- the returned id or the status code for create and delete.

The modules are:

- `CTypes` (`ctypes.dfy`): `uint32`, the C conversion of an `int` (such as `-1`) to it, and the wrapping `uint32_t` addition that give uses.
- `Semaphore` (`semaphore.dfy`): the table, the four operations and the table invariant.
- `SemaphoreTrace` (`trace.dfy`): executions as sequences of whole calls, and what holds for every execution.
- `SemaphoreProtocol` (`protocol.dfy`): multi-call properties, namely FIFO release, take/give round trips, the hand-off that still bumps the count, and sequential creation.

## Behaviour as written

The model follows the code, not an idealised counting semaphore. An idealised design would do four things differently:

- cap the count at a per-semaphore maximum;
- hand a unit to a waiter without incrementing the count;
- honour the `count` argument of create;
- not consume a slot when queue set-up fails.

The code instead does the following, and the model does the same:

- `give` increments the count even after waking a waiter. One `give` can therefore let two threads through (`HandOffLeaksUnit`). A positive count can also coexist with queued waiters (`GiveLeavesCountWithWaiters`).
- The increment wraps modulo `MAX_SEMS`. A `FULL` semaphore (count 10) drops to 1 on a `give`. A `give` at 9 drops to 0 (`TakeThenGive`, `GiveThenTake`, `GivesAdvanceCount`).
- The `count` argument of create is ignored (`CreateIgnoresCount`).
- When `queue_init` fails, create still advances `gSemcount` and still writes the slot's id and count. It then returns the sentinel. The slot is lost, and its id remains in the table. The model assumes the slot then has no usable queue (`Absent`), since what a failed `queue_init` leaves in `blockedThreads` is decided by `private/queue.h`, which is not part of this model (`Create`).

## Model

| member | source | states |
|---|---|---|
| `Semaphore.Create` | Usercode/Concurrency/semaphore.c:31-44 | Table full (`gSemcount >= MAX_SEMS`): returns the sentinel and the table is unchanged. Otherwise: `gSemcount` rises by exactly one, and the slot at the old counter gets that index as id, count `MAX_SEMS` for `FULL` else 0, and an empty queue, or no queue when `queue_init` fails. The id is returned only when the queue was set up; every other slot is unchanged. |
| `Semaphore.CreateIgnoresCount` | Usercode/Concurrency/semaphore.c:31-39 | The result of create does not depend on its `count` argument. |
| `Semaphore.Take` | Usercode/Concurrency/semaphore.c:51-62 | Positive count: `Acquired`, the count drops by one and the queue is unchanged. Zero count: `Blocked(running)`, the count stays 0 and the running thread is appended to the tail of the queue. The counter and all other slots are unchanged. |
| `Semaphore.Give` | Usercode/Concurrency/semaphore.c:69-78 | Non-empty queue: exactly the head `queue[0]` is unblocked and removed. Empty queue: nothing is unblocked. In both cases the count ends below `MAX_SEMS`: it rises by one below `MAX_SEMS - 1`, wraps 9 to 0, and goes from `MAX_SEMS` to 1. Id, counter and other slots are unchanged. |
| `Semaphore.Delete` | Usercode/Concurrency/semaphore.c:87-97 | Returns 0 exactly when no thread waits. With waiters it returns `DELETE_BUSY` and the table is unchanged. Otherwise the slot's id becomes the sentinel, its queue is dropped, the handle stops being usable, and `gSemcount` and other slots stay as they were. |
| `Semaphore.DeleteCodes` | Usercode/Concurrency/semaphore.c:85-96 | The busy code is `-1` as `uint32_t`, that is `0xFFFFFFFF`, which is distinct from the success code 0. |
| `CTypes.ToUint32` | Usercode/Concurrency/semaphore.c:91 | The conversion of an `int` to `uint32_t` yields a value congruent to the input modulo 2^32, and it is the identity on `[0, 2^32)`. |
| `CTypes.AddUint32` | Usercode/Concurrency/semaphore.c:76 | `uint32_t` addition equals the mathematical sum below 2^32 and wraps by 2^32 above it. |
| `Semaphore.InitValid` | Usercode/Concurrency/semaphore.c:21-22 | The zero-initialised table (counter 0, every slot zeroed) satisfies the invariant and has no usable handle. |
| `Semaphore.CreatePreservesValid` | Usercode/Concurrency/semaphore.c:32-43 | Create keeps the invariant: counter at most `MAX_SEMS`, counts at most `MAX_SEMS`, queues within capacity, each handed-out slot holds its own index or the sentinel, slots past the counter untouched. |
| `Semaphore.TakePreservesValid` | Usercode/Concurrency/semaphore.c:54-58 | Take keeps the invariant, including the queue-capacity bound of `MAX_SEMS`. |
| `Semaphore.GivePreservesValid` | Usercode/Concurrency/semaphore.c:72-76 | Give keeps the invariant: the wrap keeps the count below `MAX_SEMS`. |
| `Semaphore.DeletePreservesValid` | Usercode/Concurrency/semaphore.c:90-94 | Delete keeps the invariant: a deleted slot owns no usable queue. |
| `SemaphoreTrace.Step` | Usercode/Concurrency/semaphore.c:35-37 | No call lowers `gSemcount`. A create that returns a handle returns the old counter, which is below the new one. |
| `SemaphoreTrace.RunPreservesValid` | Usercode/Concurrency/semaphore.c:31-97 | Every sequence of calls the model accepts (any create, and take, give or delete on a usable handle) keeps the table invariant. |
| `SemaphoreTrace.ReachableValid` | Usercode/Concurrency/semaphore.c:21-22 | Every table reachable from start-up satisfies the invariant, so `gSemcount <= MAX_SEMS` always holds. |
| `SemaphoreTrace.SemcountBoundedByCreates` | Usercode/Concurrency/semaphore.c:32-37 | Over any execution, `gSemcount` grows by at most the number of create calls. |
| `SemaphoreTrace.IssuedIdsFresh` | Usercode/Concurrency/semaphore.c:35-43 | In any execution the handles returned by create strictly increase. Each lies between the starting counter and the final one, so no handle is returned twice, even after a delete. This holds for executions in which no create interrupts another. |
| `SemaphoreTrace.DeletedStaysDeleted` | Usercode/Concurrency/semaphore.c:93-94 | After a delete, the slot is never changed again by any later execution that passes only usable handles. It is never reused. |
| `SemaphoreProtocol.TakesAcquire` | Usercode/Concurrency/semaphore.c:54-56 | With `k` units available, `k` takes all acquire without blocking. The count drops by `k` and the queue is unchanged. |
| `SemaphoreProtocol.BlockingTakesEnqueueInOrder` | Usercode/Concurrency/semaphore.c:57-60 | On a zero count, each take blocks its caller. The callers are appended to the queue in call order and the count stays 0. |
| `SemaphoreProtocol.GivesReleaseInOrder` | Usercode/Concurrency/semaphore.c:72-75 | `k` gives unblock the first `k` waiters, one per call, in queue order, and leave the rest queued. |
| `SemaphoreProtocol.GivesAdvanceCount` | Usercode/Concurrency/semaphore.c:76 | For any queue contents, `k >= 1` gives take a count `c <= MAX_SEMS` to `(c + k) % MAX_SEMS`. Hand-offs count too. |
| `SemaphoreProtocol.FifoRelease` | Usercode/Concurrency/semaphore.c:51-78 | Threads that block in order T1..Tn on an idle, exhausted semaphore are unblocked by `n` gives in the order T1..Tn, and the queue ends empty. |
| `SemaphoreProtocol.TakeThenGive` | Usercode/Concurrency/semaphore.c:54-76 | On an idle semaphore with a positive count, take acquires, and take followed by give restores the table if and only if the count was below `MAX_SEMS`. |
| `SemaphoreProtocol.GiveThenTake` | Usercode/Concurrency/semaphore.c:54-76 | On an idle semaphore, give followed by an acquiring take restores the table if and only if the count was below `MAX_SEMS - 1`. At `MAX_SEMS - 1` the take blocks. |
| `SemaphoreProtocol.HandOffLeaksUnit` | Usercode/Concurrency/semaphore.c:57-76 | A thread blocks on a zero count, and one give unblocks it and leaves the count at 1. A further take by another thread then acquires. |
| `SemaphoreProtocol.GiveLeavesCountWithWaiters` | Usercode/Concurrency/semaphore.c:72-76 | With two or more waiters on a zero count, a give leaves count 1 while threads still wait. A newcomer's take then acquires ahead of them. |
| `SemaphoreProtocol.CreatesAreSequential` | Usercode/Concurrency/semaphore.c:31-44 | Successive successful creates return consecutive ids from the current counter, then the sentinel once the table is full. The counter stops at `MAX_SEMS`. |
| `SemaphoreProtocol.TableFillsUp` | Usercode/Concurrency/semaphore.c:13-44 | From start-up, `MAX_SEMS` creates return ids 0..9 and the next one returns the sentinel. |

## Left out

- Interrupt masking: `ATOMIC_START`/`ATOMIC_END` are not modelled. Each operation is one atomic step.
- `semaphore_create` has no guard, yet it is modelled as one atomic step. If one create interrupted another between reading `gSemcount` (line 35) and incrementing it (line 37), both could return the same id. So `IssuedIdsFresh` and `CreatesAreSequential` hold only for executions in which no create interrupts another.
- In take, `scheduler_blockThread` (line 60) runs after `ATOMIC_END` (line 59). The model returns the `Blocked` outcome as part of the same atomic step.
- The busy return of `semaphore_delete` (line 91) leaves without `ATOMIC_END`, so the critical section is never closed. A sequential model cannot express this.
- The scheduler: `scheduler_blockThread`, `scheduler_unblockThread` and `gRunningThread` are not modelled. The running thread is an input of take, and block/unblock are returned outcomes rather than real suspension. Thread handles are natural numbers.
- The queue container from `private/queue.h` is not part of this model (`queue_init`, `queue_enqueue`, `queue_dequeue`, `queue_delete`, the `rear` field). The queue is a Dafny sequence whose element 0 is the head. Whether `queue_init` succeeds is a boolean input of create.
- `Semaphore.Take`: what `queue_enqueue` does on a full queue (capacity `MAX_SEMS`) is unknown. The blocking branch therefore requires fewer than `MAX_SEMS` waiters (`CanTake`).
- `semaphore.h` is not part of this model. It defines `semID`, `SEM_ID_INVALID` and `sem_state`. Handles are modelled as `Id(index)` or `InvalidId`, on the assumption that the sentinel differs from every slot index.
- Invalid handles: the code does no bounds or liveness check on `sem`. Take, give and delete instead require a usable handle: `sem < gSemcount`, the slot still holds its own id, and it has a usable queue. Undefined behaviour is not modelled. It arises in three cases:
  - an out-of-range index;
  - give or delete on a slot without a usable queue (a deleted slot keeps a dangling pointer), since both read `blockedThreads->rear`;
  - a take at count 0 on such a slot, since it enqueues into the missing queue.
- Two calls are defined in C but still excluded by `Usable`. In both, a take with a positive count runs lines 54-55 only and never touches the queue:
  - a take on a deleted handle, which decrements the count that delete left in the slot;
  - a take on the index of a `FULL` create whose `queue_init` failed, where the slot holds count `MAX_SEMS`, so up to ten such takes succeed.

  `DeletedStaysDeleted` and the trace lemmas therefore cover only executions that pass usable handles.
- `Semaphore.Give`: for a count above `MAX_SEMS` the contract states only that the result is below `MAX_SEMS`. No reachable table has such a count (`ReachableValid`).
- Real concurrency and interleaving with interrupt handlers are not modelled.
