/** Every operation keeps the pool invariant `Inv`: the capacity bound, a duplicate-free buffer,
    and each created object owned by exactly one of buffer, borrower, destruction or the dropped set.
    Returning or invalidating is only sound for an object the caller currently holds. */
module PoolInvariants {
  import opened Outcomes
  import opened ObjectFactory
  import opened PoolState
  import opened SimpleObjectPool

  /** A pool that was constructed at all satisfies the invariant. */
  lemma NewPoolEstablishesInv(f: Factory, cfg: Config)
    requires NewPool(f, cfg).Ok?
    ensures Inv(NewPool(f, cfg).value)
  {
    var q := NewPool(f, cfg).value;
    var n := PreloadCount(cfg);
    var k := Min(n, cfg.maxSize);
    IdRangeElems(0, k);
    assert IdSet(0, k) + IdSet(k, n) == IdSet(0, n);
  }

  /** A borrow keeps the invariant, and what it hands out was owned by nobody: not on loan,
      not destroyed, not dropped. */
  lemma BorrowPreservesInv(f: Factory, p: Pool)
    requires Inv(p)
    ensures Inv(BorrowObject(f, p).pool)
    ensures var r := BorrowObject(f, p);
      r.result.Ok? ==> r.result.value !in p.borrowed && r.result.value !in Elems(p.log.destroyed)
                       && r.result.value !in p.log.dropped && r.result.value !in Elems(r.pool.idle)
  {
    var r := BorrowObject(f, p);
    if |p.idle| > 0 {
      ElemsTail(p.idle);
    } else if r.result.Ok? {
      var o := p.log.nextId;
      assert o !in IdSet(0, o);
      assert IdSet(0, o + 1) == IdSet(0, o) + {o};
    }
  }

  /** Returning an object the caller holds keeps the invariant. */
  lemma ReturnPreservesInv(f: Factory, p: Pool, o: ObjId)
    requires Inv(p) && o in p.borrowed
    ensures Inv(ReturnObject(f, p, o).pool)
  {
    var q := ReturnObject(f, p, o).pool;
    assert o !in Elems(p.idle) && o !in Elems(p.log.destroyed);
    ElemsAppend(p.idle, o);
    ElemsAppend(p.log.destroyed, o);
  }

  /** Invalidating an object the caller holds keeps the invariant. */
  lemma InvalidatePreservesInv(p: Pool, o: ObjId)
    requires Inv(p) && o in p.borrowed
    ensures Inv(InvalidateObject(p, o))
  {
    assert o !in Elems(p.log.destroyed);
    ElemsAppend(p.log.destroyed, o);
  }

  lemma NoDupConcat(a: seq<ObjId>, b: seq<ObjId>)
    requires NoDup(a) && NoDup(b) && Elems(a) !! Elems(b)
    ensures NoDup(a + b)
  {
    var c := a + b;
    forall i, j | 0 <= i < j < |c| ensures c[i] != c[j] {
      if j >= |a| && i < |a| {
        assert c[i] in Elems(a) && c[j] in Elems(b);
      }
    }
  }

  /** Closing keeps the invariant. */
  lemma ClosePreservesInv(f: Factory, p: Pool)
    requires Inv(p)
    ensures Inv(Close(f, p).pool)
  {
    ElemsConcat(p.log.destroyed, p.idle);
    NoDupConcat(p.log.destroyed, p.idle);
  }

  /** Close destroys every object idle at call time exactly once, and destroys no borrowed object. */
  lemma CloseDestroysIdleOnce(f: Factory, p: Pool)
    requires Inv(p)
    ensures var d := Close(f, p).pool.log.destroyed;
      && (forall o | o in p.idle :: multiset(d)[o] == 1)
      && (forall o | o in p.borrowed :: o !in d)
  {
    var d := Close(f, p).pool.log.destroyed;
    forall o | o in p.idle ensures multiset(d)[o] == 1 {
      assert o !in Elems(p.log.destroyed);
      assert multiset(p.log.destroyed)[o] == 0;
      NoDupCount(p.idle, o);
    }
  }

  lemma NoDupCount(s: seq<ObjId>, o: ObjId)
    requires NoDup(s) && o in s
    ensures multiset(s)[o] == 1
  {
    if s[0] == o {
      ElemsTail(s);
      assert s == [o] + s[1..];
      assert o !in Elems(s[1..]);
    } else {
      ElemsTail(s);
      assert s == [s[0]] + s[1..];
      NoDupCount(s[1..], o);
    }
  }
}
