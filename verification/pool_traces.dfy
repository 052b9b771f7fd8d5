/** Sequences of single-object calls against one pool, and what they imply about ownership:
    an object that has been destroyed is never handed out again. */
module PoolTraces {
  import opened Outcomes
  import opened ObjectFactory
  import opened PoolState
  import opened SimpleObjectPool
  import opened PoolInvariants

  datatype Op = Borrow | Return(obj: ObjId) | Invalidate(obj: ObjId) | Shutdown

  /** The pool after a run of calls, and the objects successful borrows handed out, in order. */
  datatype Trace = Trace(pool: Pool, handedOut: seq<ObjId>)

  /** One call. Errors do not stop a run: the caller may carry on with the pool as the call left it. */
  function Apply(f: Factory, p: Pool, op: Op): (r: Trace)
    ensures |r.handedOut| <= 1
    ensures op != Borrow ==> r.handedOut == []
    ensures p.log.destroyed <= r.pool.log.destroyed
  {
    match op
    case Borrow =>
      var b := BorrowObject(f, p);
      Trace(b.pool, if b.result.Ok? then [b.result.value] else [])
    case Return(o) => Trace(ReturnObject(f, p, o).pool, [])
    case Invalidate(o) => Trace(InvalidateObject(p, o), [])
    case Shutdown => Trace(Close(f, p).pool, [])
  }

  function Run(f: Factory, p: Pool, ops: seq<Op>): (r: Trace)
    ensures p.log.destroyed <= r.pool.log.destroyed
    ensures |r.handedOut| <= |ops|
    decreases |ops|
  {
    if |ops| == 0 then Trace(p, [])
    else
      var t := Apply(f, p, ops[0]);
      var rest := Run(f, t.pool, ops[1..]);
      Trace(rest.pool, t.handedOut + rest.handedOut)
  }

  /** The caller hands back (returns or invalidates) only an object it currently holds. */
  predicate Holds(p: Pool, op: Op) {
    match op
    case Return(o) => o in p.borrowed
    case Invalidate(o) => o in p.borrowed
    case _ => true
  }

  /** Every call of the run respects single ownership in the state it is made in. */
  predicate WellBehaved(f: Factory, p: Pool, ops: seq<Op>)
    decreases |ops|
  {
    |ops| == 0 || (Holds(p, ops[0]) && WellBehaved(f, Apply(f, p, ops[0]).pool, ops[1..]))
  }

  lemma ApplyPreservesInv(f: Factory, p: Pool, op: Op)
    requires Inv(p) && Holds(p, op)
    ensures Inv(Apply(f, p, op).pool)
    ensures forall o | o in Apply(f, p, op).handedOut :: o !in Elems(p.log.destroyed)
  {
    match op
    case Borrow => BorrowPreservesInv(f, p);
    case Return(o) => ReturnPreservesInv(f, p, o);
    case Invalidate(o) => InvalidatePreservesInv(p, o);
    case Shutdown => ClosePreservesInv(f, p);
  }

  /** A well-behaved run keeps the invariant and never hands out an object destroyed before it began. */
  lemma {:induction false} RunPreservesInv(f: Factory, p: Pool, ops: seq<Op>)
    requires Inv(p) && WellBehaved(f, p, ops)
    ensures Inv(Run(f, p, ops).pool)
    ensures forall o | o in Elems(p.log.destroyed) :: o !in Run(f, p, ops).handedOut
    decreases |ops|
  {
    if |ops| > 0 {
      var t := Apply(f, p, ops[0]);
      ApplyPreservesInv(f, p, ops[0]);
      RunPreservesInv(f, t.pool, ops[1..]);
    }
  }

  /** An object whose validation fails when it is returned is destroyed, and no later borrow of a
      well-behaved run ever hands it out again. */
  lemma InvalidReturnNeverReborrowed(f: Factory, p: Pool, o: ObjId, ops: seq<Op>)
    requires Inv(p) && o in p.borrowed
    requires f.validate(|p.log.validated|, o) == Invalid
    requires WellBehaved(f, ReturnObject(f, p, o).pool, ops)
    ensures o in Elems(ReturnObject(f, p, o).pool.log.destroyed)
    ensures o !in Run(f, ReturnObject(f, p, o).pool, ops).handedOut
  {
    var q := ReturnObject(f, p, o).pool;
    ReturnPreservesInv(f, p, o);
    assert q.log.destroyed[|q.log.destroyed| - 1] == o;
    RunPreservesInv(f, q, ops);
  }
}
