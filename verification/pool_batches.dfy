/** Properties of batches of calls: preloaded objects are borrowed without the factory, borrowing
    is not capped by maxSize, and returning many objects shrinks the population back to maxSize. */
module PoolBatches {
  import opened Outcomes
  import opened ObjectFactory
  import opened PoolState
  import opened SimpleObjectPool
  import opened PoolInvariants

  /** Borrowing no more objects than are idle hands out the front of the buffer, in order, and
      makes no factory call. */
  lemma {:induction false} BorrowObjectsFromIdle(f: Factory, p: Pool, count: nat)
    requires count <= |p.idle|
    ensures var r := BorrowObjects(f, p, count);
      && r.result == Ok(p.idle[..count])
      && r.pool.idle == p.idle[count..]
      && r.pool.log == p.log
    decreases count
  {
    if count > 0 {
      var b := BorrowObject(f, p);
      assert b.result == Ok(p.idle[0]) && b.pool.idle == p.idle[1..] && b.pool.log == p.log;
      var rest := BorrowObjects(f, b.pool, count - 1);
      BorrowObjectsFromIdle(f, b.pool, count - 1);
      assert rest.result == Ok(p.idle[1..][..count - 1]) && rest.pool.idle == p.idle[1..][count - 1..];
      SliceAfterHead(p.idle, count);
      BorrowObjectsUnfold(f, p, count);
    }
  }

  lemma SliceAfterHead(s: seq<ObjId>, count: nat)
    requires 0 < count <= |s|
    ensures [s[0]] + s[1..][..count - 1] == s[..count]
    ensures s[1..][count - 1..] == s[count..]
  {
  }

  /** A successful borrow adds to the loans one object that was not on loan. */
  lemma BorrowHandsOutUnheld(f: Factory, p: Pool)
    requires Inv(p) && BorrowObject(f, p).result.Ok?
    ensures var b := BorrowObject(f, p);
      && Inv(b.pool)
      && b.result.value !in p.borrowed
      && b.pool.borrowed == p.borrowed + {b.result.value}
  {
    BorrowPreservesInv(f, p);
  }

  lemma DistinctCons(o: ObjId, objs: seq<ObjId>, before: set<ObjId>, after: set<ObjId>)
    requires o in after && o !in before && before <= after
    requires NoDup(objs) && Elems(objs) !! after
    ensures NoDup([o] + objs) && Elems([o] + objs) !! before
  {
    ElemsConcat([o], objs);
    NoDupConcat([o], objs);
  }

  /** A batch whose first borrow succeeds is that object followed by the rest of the batch. */
  lemma BorrowObjectsUnfold(f: Factory, p: Pool, count: int)
    requires count > 0 && BorrowObject(f, p).result.Ok?
    ensures var b := BorrowObject(f, p);
      var rest := BorrowObjects(f, b.pool, count - 1);
      var r := BorrowObjects(f, p, count);
      && r.pool == rest.pool
      && r.result.Ok? == rest.result.Ok?
      && (rest.result.Ok? ==> r.result.value == [b.result.value] + rest.result.value)
  {
  }

  /** Right after construction, minSize objects (when minSize <= maxSize) can be borrowed without
      calling the factory again: they are the objects created by the preload, in creation order. */
  lemma PreloadedObjectsBorrowable(f: Factory, cfg: Config)
    requires NewPool(f, cfg).Ok? && cfg.minSize <= cfg.maxSize
    ensures var q := NewPool(f, cfg).value;
      var r := BorrowObjects(f, q, cfg.minSize);
      && r.result == Ok(IdRange(0, PreloadCount(cfg)))
      && r.pool.idle == []
      && r.pool.log.createCalls == PreloadCount(cfg)
  {
    var q := NewPool(f, cfg).value;
    var n := PreloadCount(cfg);
    assert q.idle == IdRange(0, n) && q.log.createCalls == n;
    BorrowObjectsFromIdle(f, q, n);
    var r := BorrowObjects(f, q, n);
    assert r.result == Ok(q.idle[..n]) && r.pool.idle == q.idle[n..] && r.pool.log == q.log;
    assert |q.idle| == n;
    assert q.idle[..n] == q.idle;
    assert q.idle[n..] == [];
    assert BorrowObjects(f, q, cfg.minSize) == r;
  }

  /** A batch borrow keeps the invariant, whether or not it fails part-way. */
  lemma {:induction false} BorrowObjectsPreservesInv(f: Factory, p: Pool, count: int)
    requires Inv(p)
    ensures Inv(BorrowObjects(f, p, count).pool)
    decreases if count < 0 then 0 else count
  {
    if count > 0 {
      var b := BorrowObject(f, p);
      BorrowPreservesInv(f, p);
      if b.result.Ok? {
        var q := b.pool;
        BorrowObjectsPreservesInv(f, q, count - 1);
        BorrowObjectsUnfold(f, p, count);
        InvTransfer(BorrowObjects(f, q, count - 1).pool, BorrowObjects(f, p, count).pool);
      } else {
        assert BorrowObjects(f, p, count).pool == b.pool;
      }
    }
  }

  lemma InvTransfer(p: Pool, q: Pool)
    requires Inv(p) && p == q
    ensures Inv(q)
  {
  }

  /** A batch borrow hands out pairwise distinct objects that nobody held before. */
  lemma {:induction false} BorrowObjectsDistinct(f: Factory, p: Pool, count: int)
    requires Inv(p)
    ensures var r := BorrowObjects(f, p, count);
      r.result.Ok? ==> NoDup(r.result.value) && Elems(r.result.value) !! p.borrowed
    decreases if count < 0 then 0 else count
  {
    if count > 0 {
      var b := BorrowObject(f, p);
      if b.result.Ok? {
        var o := b.result.value;
        BorrowHandsOutUnheld(f, p);
        var rest := BorrowObjects(f, b.pool, count - 1);
        BorrowObjectsDistinct(f, b.pool, count - 1);
        if rest.result.Ok? {
          var objs := rest.result.value;
          assert NoDup(objs) && Elems(objs) !! b.pool.borrowed;
          DistinctCons(o, objs, p.borrowed, b.pool.borrowed);
          BorrowObjectsUnfold(f, p, count);
        }
      }
    }
  }

  /** maxSize caps the idle buffer, not the objects on loan: when every create call succeeds,
      any number of borrows succeeds, each one an object nobody held. */
  lemma BorrowObjectsNotCappedByMaxSize(f: Factory, p: Pool, count: nat)
    requires Inv(p)
    requires AllCreate(f, p.log.createCalls, count)
    ensures var r := BorrowObjects(f, p, count);
      r.result.Ok? && |r.pool.borrowed| == |p.borrowed| + count
  {
    BorrowObjectsSucceed(f, p, count);
    BorrowObjectsDistinct(f, p, count);
    var r := BorrowObjects(f, p, count);
    var objs := r.result.value;
    NoDupCard(objs);
    assert p.borrowed * Elems(objs) == {};
  }

  /** A batch borrow from a pool with positive capacity fails only if one of its create calls does not
      yield an object: each borrow takes an idle object or makes one create call. */
  lemma {:induction false} BorrowObjectsSucceed(f: Factory, p: Pool, count: nat)
    requires p.cfg.maxSize > 0
    requires AllCreate(f, p.log.createCalls, count)
    ensures BorrowObjects(f, p, count).result.Ok?
    decreases count
  {
    if count > 0 {
      var c := p.log.createCalls;
      assert f.create(c) == Fresh;
      var b := BorrowObject(f, p);
      var c1 := b.pool.log.createCalls;
      assert c <= c1 <= c + 1;
      assert AllCreate(f, c1, count - 1) by {
        forall k | c1 <= k < c1 + (count - 1) ensures f.create(k) == Fresh {
          assert c <= k < c + count;
        }
      }
      BorrowObjectsSucceed(f, b.pool, count - 1);
    }
  }

  /** A duplicate-free sequence has as many distinct elements as entries. */
  lemma {:induction false} NoDupCard(s: seq<ObjId>)
    requires NoDup(s)
    ensures |Elems(s)| == |s|
    decreases |s|
  {
    if |s| > 0 {
      ElemsTail(s);
      NoDupCard(s[1..]);
    }
  }

  /** Returning distinct objects the caller holds keeps the invariant, whatever validate answers. */
  lemma {:induction false} ReturnObjectsPreservesInv(f: Factory, p: Pool, objs: seq<ObjId>)
    requires Inv(p) && NoDup(objs) && Elems(objs) <= p.borrowed
    ensures Inv(ReturnObjects(f, p, objs).pool)
    decreases |objs|
  {
    if |objs| > 0 {
      var first := ReturnObject(f, p, objs[0]);
      ReturnPreservesInv(f, p, objs[0]);
      if first.result.Ok? {
        ElemsTail(objs);
        ReturnObjectsPreservesInv(f, first.pool, objs[1..]);
      }
    }
  }

  /** Every validate call on the returned objects, in order, answers Valid. */
  predicate AllValid(f: Factory, first: nat, objs: seq<ObjId>) {
    forall k | 0 <= k < |objs| :: f.validate(first + k, objs[k]) == Valid
  }

  /** Returning held, valid objects refills the buffer up to maxSize and destroys the rest:
      none is lost, and the invariant holds afterwards. */
  lemma {:induction false} ReturnObjectsRefillsThenDestroys(f: Factory, p: Pool, objs: seq<ObjId>)
    requires Inv(p) && NoDup(objs) && Elems(objs) <= p.borrowed
    requires AllValid(f, |p.log.validated|, objs)
    ensures var r := ReturnObjects(f, p, objs);
      && r.result.Ok?
      && Inv(r.pool)
      && |r.pool.idle| == Min(|p.idle| + |objs|, p.cfg.maxSize)
      && |r.pool.log.destroyed| + |r.pool.idle| == |p.log.destroyed| + |p.idle| + |objs|
    decreases |objs|
  {
    if |objs| > 0 {
      var o := objs[0];
      var q := ReturnObject(f, p, o).pool;
      assert f.validate(|p.log.validated| + 0, objs[0]) == Valid;
      ReturnPreservesInv(f, p, o);
      ElemsTail(objs);
      assert AllValid(f, |q.log.validated|, objs[1..]) by {
        forall k | 0 <= k < |objs[1..]|
          ensures f.validate(|q.log.validated| + k, objs[1..][k]) == Valid
        {
          assert f.validate(|p.log.validated| + (k + 1), objs[k + 1]) == Valid;
        }
      }
      ReturnObjectsRefillsThenDestroys(f, q, objs[1..]);
    }
  }

  /** A valid object returned to an empty buffer is what the next borrow hands out, and that
      borrow makes no create call. */
  lemma ReturnThenBorrowRoundTrip(f: Factory, p: Pool, o: ObjId)
    requires Inv(p) && o in p.borrowed && |p.idle| == 0
    requires f.validate(|p.log.validated|, o) == Valid
    ensures var q := ReturnObject(f, p, o).pool;
      var b := BorrowObject(f, q);
      && b.result == Ok(o)
      && b.pool.idle == []
      && b.pool.borrowed == p.borrowed
      && b.pool.log.createCalls == p.log.createCalls
  {
  }
}
