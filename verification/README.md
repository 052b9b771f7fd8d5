# SimpleObjectPool — a sequential model in Dafny

This project models the lifecycle engine of `SimpleObjectPool`, a bounded object pool. The pool
preloads `minSize` objects from a factory. It hands objects out (`borrowObject`) and takes them
back (`returnObject`), validating each returned object and destroying it when it is invalid or
the idle buffer is full. It destroys objects on request (`invalidateObject`). On `close` it
drains and destroys every idle object.

The model runs one call at a time. Each operation is a pure function. Borrow, return, close and
the batch operations take the factory oracle and the pool state, and give back the new state plus a
`Result`: the returned value, or the kind of exception raised. `InvalidateObject` needs no factory
answer and never raises, so it takes the pool state and gives back the new state alone.

- `outcomes.dfy` (`Outcomes`): the exception kinds and `Result`.
- `object_factory.dfy` (`ObjectFactory`): the factory as an oracle. `create` answers
  `Fresh` (a new object), `Null` or `CreateThrows`. `validate` answers `Valid`, `Invalid` or
  `ValidateThrows`. `destroy` succeeds or fails. Each answer is a function of the call's number,
  so repeated calls may answer differently.
- `pool_state.dfy` (`PoolState`): the pool.
  - `idle` is the FIFO buffer, front first, with capacity `maxSize`.
  - `borrowed` is the set of objects on loan. The source does not track it; the model keeps it
    to state ownership.
  - The factory-effect log records the number of create calls, the next fresh id, the arguments
    of validate and destroy in call order, and the preload surplus the full buffer refused.
  - `Inv` is the invariant: the capacity bound, no duplicates in the buffer or the destroy log,
    and every created object in exactly one of buffer, loans, destroyed or dropped.
- `simple_object_pool.dfy` (`SimpleObjectPool`): the constructor with its preload loop,
  `BorrowObject`, `ReturnObject`, `InvalidateObject`, `Close`, and the batch operations as
  sequential folds.
- `pool_invariants.dfy` (`PoolInvariants`): each single-object operation preserves `Inv`, and
  close destroys each idle object exactly once.
- `pool_traces.dfy` (`PoolTraces`): runs of calls. An object whose `validate` answers false on return
  is never handed out again. (When `validate` throws, the caller keeps the object and may return
  it again later.)
- `pool_batches.dfy` (`PoolBatches`): batch properties.
  - Both batch operations preserve `Inv`, whatever the factory answers.
  - Preloaded objects are borrowed without calling the factory.
  - Borrowing is not capped by `maxSize`.
  - Returning n objects that all validate fills the buffer to min(buffer size + n, `maxSize`)
    and destroys the rest.

Several behaviours of the code differ from what one might expect of a bounded pool. The model
follows the code:

- `pool.size() < maxSize` in `borrowObject` counts idle objects only. It is checked right
  after `poll()` found the buffer empty, so it always holds in a constructed pool. An empty
  buffer therefore always leads to one `create` call, and `maxSize` never limits how many
  objects are on loan (`BorrowObjectsNotCappedByMaxSize`). The timed wait is reached only when
  `create` returns null. Run sequentially, that wait finds nothing, so the timeout error arises
  only then. One might expect `maxSize` to cap the objects in circulation, and a second
  borrow from a one-object pool to time out. Instead that borrow creates a second object.
- One might expect `minSize > maxSize` to be rejected. It is not. `offer` silently refuses the surplus during preload, so
  those objects are neither pooled nor destroyed. The model records them in `dropped`.
- A non-positive `maxSize` makes the bounded queue's constructor throw before any object is
  created (`InvalidCapacity`).
- When `validate` throws, the exception leaves `returnObject`. The object is neither pooled nor
  destroyed, and the caller still holds it.
- One might expect a closed pool to refuse further calls. There is no closed state. After `close` the pool keeps working with an empty buffer.

## Model

| member | source | states |
|---|---|---|
| SimpleObjectPool.NewPool | src/com/objectpool/SimpleObjectPool.java:23-44 | Construction succeeds iff maxSize > 0 and each of the max(minSize,0) create calls yields an object. The buffer then holds the first min(minSize, maxSize) created objects in creation order, nothing is on loan, create was called max(minSize,0) times, and the surplus is dropped, not destroyed. Otherwise the error is InvalidCapacity (maxSize <= 0) or CreationFailed. |
| SimpleObjectPool.Preload | src/com/objectpool/SimpleObjectPool.java:36-44 | n preload iterations succeed iff the next n create calls all yield an object; a null or failed create aborts with CreationFailed. On success the buffer gains exactly as many new objects as it has room for, the rest are dropped, and nothing else changes. |
| SimpleObjectPool.BorrowObject | src/com/objectpool/SimpleObjectPool.java:46-71 | Non-empty buffer: returns the front object, the rest stays in order, no factory call. Empty buffer: exactly one create call when maxSize > 0. The call succeeds iff an object is idle or that create yields one, which is then a fresh object. It fails with CreationFailed iff create throws, and with BorrowTimedOut iff create yields null (or maxSize <= 0). A success moves the object into the loans; a failure leaves buffer and loans unchanged. |
| SimpleObjectPool.ReturnObject | src/com/objectpool/SimpleObjectPool.java:73-91 | validate is called exactly once, first, whatever the buffer holds. If it throws, ValidationFailed and nothing else changes. If it is false, or the buffer holds >= maxSize, the object is destroyed and the buffer is unchanged; otherwise it is appended to the back. Either way it leaves the loans. |
| SimpleObjectPool.InvalidateObject | src/com/objectpool/SimpleObjectPool.java:104-113 | The object is destroyed unconditionally, with no validate call; the buffer is unchanged and the object leaves the loans. |
| SimpleObjectPool.Close | src/com/objectpool/SimpleObjectPool.java:115-136 | The buffer ends empty; destroy is attempted on every idle object in buffer order; loans and all other logs are unchanged. The call succeeds iff every one of those destroys succeeds, else ClosureFailed. |
| SimpleObjectPool.BorrowObjects | src/com/objectpool/SimpleObjectPool.java:93-98 | On success exactly max(count,0) objects are handed out and all of them join the loans. Loans never shrink. A failure is CreationFailed or BorrowTimedOut. |
| SimpleObjectPool.ReturnObjects | src/com/objectpool/SimpleObjectPool.java:100-102 | On success validate was called once per object in list order, every listed object left the loans, and each one went to the back of the buffer or to destruction, with buffer plus destroy log grown by exactly the list length. Earlier buffer contents and destroys are kept as prefixes, and the buffer stays within maxSize. The only failure is ValidationFailed. |
| PoolInvariants.NewPoolEstablishesInv | src/com/objectpool/SimpleObjectPool.java:23-44 | A successfully constructed pool satisfies the invariant: capacity bound, duplicate-free buffer, and single ownership of every created object. |
| PoolInvariants.BorrowPreservesInv | src/com/objectpool/SimpleObjectPool.java:46-71 | Borrow preserves the invariant. The object handed out was not on loan, not destroyed and not dropped, and it is no longer in the buffer, so no object is issued twice. |
| PoolInvariants.ReturnPreservesInv | src/com/objectpool/SimpleObjectPool.java:73-91 | Returning an object the caller holds preserves the invariant, in particular buffer size <= maxSize. |
| PoolInvariants.InvalidatePreservesInv | src/com/objectpool/SimpleObjectPool.java:104-113 | Invalidating an object the caller holds preserves the invariant; the object is destroyed once. |
| PoolInvariants.ClosePreservesInv | src/com/objectpool/SimpleObjectPool.java:115-136 | Close preserves the invariant; the destroy log stays duplicate-free. |
| PoolInvariants.CloseDestroysIdleOnce | src/com/objectpool/SimpleObjectPool.java:118-129 | Every object idle when close is called occurs exactly once in the destroy log afterwards; no borrowed object is destroyed. |
| PoolTraces.RunPreservesInv | src/com/objectpool/SimpleObjectPool.java:46-136 | Any run of borrow/return/invalidate/close calls that returns or invalidates only objects it holds keeps the invariant. No borrow in it hands out an object destroyed before the run began. |
| PoolTraces.InvalidReturnNeverReborrowed | src/com/objectpool/SimpleObjectPool.java:74-83 | An object for which validate answers false on return is destroyed, and no borrow in any later well-behaved run hands it out again. |
| PoolBatches.BorrowObjectsFromIdle | src/com/objectpool/SimpleObjectPool.java:93-98 | Borrowing count <= buffer size objects hands out the buffer's first count objects in order, leaves the rest, and makes no factory call. |
| PoolBatches.PreloadedObjectsBorrowable | src/com/objectpool/SimpleObjectPool.java:36-48 | Right after construction with minSize <= maxSize, minSize borrows return exactly the preloaded objects and create is not called again. |
| PoolBatches.BorrowObjectsPreservesInv | src/com/objectpool/SimpleObjectPool.java:93-98 | A batch borrow keeps the invariant, including when it fails part-way with some objects already borrowed. |
| PoolBatches.BorrowObjectsDistinct | src/com/objectpool/SimpleObjectPool.java:93-98 | A successful batch borrow hands out pairwise distinct objects, none of which was on loan before. |
| PoolBatches.BorrowObjectsNotCappedByMaxSize | src/com/objectpool/SimpleObjectPool.java:47-57 | When every create call yields an object, a batch of any size succeeds and the number of loans grows by exactly that size, beyond maxSize if need be. |
| PoolBatches.BorrowObjectsSucceed | src/com/objectpool/SimpleObjectPool.java:47-57 | With positive capacity, a batch of count borrows succeeds whenever the next count create calls would all yield objects. Each borrow takes an idle object or makes one create call. |
| PoolBatches.ReturnObjectsPreservesInv | src/com/objectpool/SimpleObjectPool.java:100-102 | Returning distinct objects the caller holds keeps the invariant, whatever validate answers for each (valid, invalid or throwing). |
| PoolBatches.ReturnObjectsRefillsThenDestroys | src/com/objectpool/SimpleObjectPool.java:74-90 | Returning distinct held objects that all validate fills the buffer to min(buffer size + n, maxSize) and destroys exactly the remainder, keeping the invariant. |
| PoolBatches.ReturnThenBorrowRoundTrip | src/com/objectpool/SimpleObjectPool.java:48-86 | A valid object returned to an empty buffer is the next object borrowed, with no create call, and the loans are as before the return. |

## Left out

- Asynchrony: `supplyAsync`, `runAsync` and `join` are not modelled. A destroy is recorded in the
  log when it is scheduled, and a create is a synchronous oracle answer.
- Concurrency: blocking, the timing of `poll(timeout)`, and interrupts are not modelled. The
  `ObjectBorrowException` for an interrupted wait is absent, and the timed poll of a sequential run
  always finds the buffer empty. The races between `pool.size()` and `offer`/`poll` do not arise
  one call at a time.
- SimpleObjectPool.BorrowObjects: the batch runs as a sequential fold that stops at the first failure.
  The parallel stream promises no order and may run other borrows after one fails.
- SimpleObjectPool.ReturnObjects: the batch runs as a sequential fold that stops at the first
  validation error, for the same reason.
- `ThreadSafeObjectFactory` (src/com/objectpool/ThreadSafeObjectFactory.java) adds only
  `synchronized` mutual exclusion and exception rewrapping. It appears only as the three-answer
  factory oracle.
- The `ObjectReturnException` path of `returnObject` is dead when run sequentially. That `offer`
  runs only when the buffer is below capacity, and objects are never null.
- Destroy failures during `returnObject` and `invalidateObject` are not modelled. They stay inside
  the discarded asynchronous task, so only the attempt is logged.
- Null arguments to `returnObject`/`invalidateObject` are not modelled; objects are ids.
- `timeout` is kept in the configuration but has no effect in a sequential run.
- Exception causes and messages are not modelled; only the exception kind is.
- The example and benchmark classes (wall-clock timing, sleeping constructors, atomic counters)
  are not part of this model.
