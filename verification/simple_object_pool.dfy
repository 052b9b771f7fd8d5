/** The borrow/return/invalidate/close protocol of `SimpleObjectPool`, run one call at a time.
    Every operation takes the factory oracle and the pool, and returns the new pool together with
    what the call returned or raised. */
module SimpleObjectPool {
  import opened Outcomes
  import opened ObjectFactory
  import opened PoolState

  /** The create calls numbered first .. first+n-1 all return a new object. */
  predicate AllCreate(f: Factory, first: nat, n: nat) {
    forall k | first <= k < first + n :: f.create(k) == Fresh
  }

  /** The destroy calls numbered first, first+1, ... on the objects of `objs`, in order, all succeed. */
  predicate AllDestroy(f: Factory, first: nat, objs: seq<ObjId>) {
    forall k | 0 <= k < |objs| :: f.destroy(first + k, objs[k])
  }

  /** How many of n offers a buffer holding `held` objects accepts before it is full. */
  function Room(held: nat, cap: int, n: nat): (r: nat)
    ensures r <= n && held + r <= if held <= cap then cap else held
  {
    if held >= cap then 0 else Min(n, cap - held)
  }

  /** The effect of n successful preload steps on p: each creates the next id and offers it,
      the first `Room` of them are accepted, the rest are dropped, nothing else changes. */
  predicate PreloadedFrom(p: Pool, n: nat, q: Pool) {
    var k := Room(|p.idle|, p.cfg.maxSize, n);
    && q.cfg == p.cfg
    && q.borrowed == p.borrowed
    && q.idle == p.idle + IdRange(p.log.nextId, p.log.nextId + k)
    && q.log == p.log.(createCalls := p.log.createCalls + n,
                       nextId := p.log.nextId + n,
                       dropped := p.log.dropped + IdSet(p.log.nextId + k, p.log.nextId + n))
  }

  /** The preload loop of the constructor, with n iterations still to run: create an object,
      raise a creation error if there is none, and `offer` it to the buffer, which silently
      refuses it once full. */
  function Preload(f: Factory, p: Pool, n: nat): (r: Result<Pool>)
    ensures r.Ok? <==> AllCreate(f, p.log.createCalls, n)
    ensures r.Ok? ==> PreloadedFrom(p, n, r.value)
    ensures r.Err? ==> r.error == CreationFailed
    decreases n
  {
    if n == 0 then Ok(p)
    else
      match f.create(p.log.createCalls)
      case Fresh =>
        AllCreateStep(f, p.log.createCalls, n);
        var r := Preload(f, OfferNew(p), n - 1);
        if r.Ok? then PreloadStep(p, n, r.value); r else r
      case _ => Err(CreationFailed)
  }

  lemma AllCreateStep(f: Factory, first: nat, n: nat)
    requires n > 0
    ensures AllCreate(f, first, n) <==> f.create(first) == Fresh && AllCreate(f, first + 1, n - 1)
  {
  }

  /** One successful preload iteration: the created object gets the next id and is offered to the
      buffer, which keeps it when there is room and otherwise drops it. */
  function OfferNew(p: Pool): (r: Pool)
    ensures r.cfg == p.cfg && r.borrowed == p.borrowed
    ensures r.log.createCalls == p.log.createCalls + 1 && r.log.nextId == p.log.nextId + 1
  {
    var o := p.log.nextId;
    var full := |p.idle| >= p.cfg.maxSize;
    p.(idle := if full then p.idle else p.idle + [o],
       log := p.log.(createCalls := p.log.createCalls + 1,
                     nextId := o + 1,
                     dropped := if full then p.log.dropped + {o} else p.log.dropped))
  }

  lemma PreloadStep(p: Pool, n: nat, q: Pool)
    requires n > 0 && PreloadedFrom(OfferNew(p), n - 1, q)
    ensures PreloadedFrom(p, n, q)
  {
    if |p.idle| >= p.cfg.maxSize {
      PreloadStepFull(p, n, q);
    } else {
      PreloadStepRoom(p, n, q);
    }
  }

  lemma PreloadStepFull(p: Pool, n: nat, q: Pool)
    requires n > 0 && |p.idle| >= p.cfg.maxSize
    requires PreloadedFrom(OfferNew(p), n - 1, q)
    ensures PreloadedFrom(p, n, q)
  {
    var o := p.log.nextId;
    var p1 := OfferNew(p);
    assert p1.idle == p.idle && p1.log.dropped == p.log.dropped + {o};
    assert Room(|p.idle|, p.cfg.maxSize, n) == 0;
    assert Room(|p1.idle|, p.cfg.maxSize, n - 1) == 0;
    assert IdRange(o + 1, o + 1) == [] && IdRange(o, o) == [];
    assert IdSet(o, o + n) == {o} + IdSet(o + 1, o + n);
    assert q.log.dropped == p.log.dropped + IdSet(o, o + n);
  }

  lemma PreloadStepRoom(p: Pool, n: nat, q: Pool)
    requires n > 0 && |p.idle| < p.cfg.maxSize
    requires PreloadedFrom(OfferNew(p), n - 1, q)
    ensures PreloadedFrom(p, n, q)
  {
    var o := p.log.nextId;
    var p1 := OfferNew(p);
    assert p1.idle == p.idle + [o] && p1.log.dropped == p.log.dropped;
    var k := Room(|p.idle|, p.cfg.maxSize, n);
    var k1 := Room(|p1.idle|, p.cfg.maxSize, n - 1);
    assert k1 == k - 1;
    IdRangeCons(o, o + k);
    assert q.idle == p.idle + [o] + IdRange(o + 1, o + k);
    assert q.idle == p.idle + IdRange(o, o + k);
    assert q.log.dropped == p.log.dropped + IdSet(o + k, o + n);
  }

  /** The number of preload iterations: the loop runs minSize times, and not at all when minSize is negative. */
  function PreloadCount(cfg: Config): nat {
    if cfg.minSize < 0 then 0 else cfg.minSize
  }

  function EmptyPool(cfg: Config): Pool {
    Pool(cfg, [], {}, Log(0, 0, [], [], {}))
  }

  /** The constructor: allocate a buffer of capacity maxSize (which must be positive), then preload. */
  function NewPool(f: Factory, cfg: Config): (r: Result<Pool>)
    ensures r.Ok? <==> cfg.maxSize > 0 && AllCreate(f, 0, PreloadCount(cfg))
    ensures r.Err? ==> r.error == if cfg.maxSize <= 0 then InvalidCapacity else CreationFailed
    ensures r.Ok? ==>
      var n := PreloadCount(cfg);
      var k := Min(n, cfg.maxSize);
      && r.value.cfg == cfg
      && r.value.idle == IdRange(0, k)
      && r.value.borrowed == {}
      && r.value.log == Log(n, n, [], [], IdSet(k, n))
  {
    if cfg.maxSize <= 0 then Err(InvalidCapacity)
    else Preload(f, EmptyPool(cfg), PreloadCount(cfg))
  }

  /** `borrowObject`: take the head of the buffer; if there is none and the buffer is below capacity,
      create one; if there is still none, the timed poll finds the buffer empty and the call times out. */
  function BorrowObject(f: Factory, p: Pool): (r: Reply<ObjId>)
    ensures r.pool.cfg == p.cfg && r.pool.log.validated == p.log.validated
    ensures r.pool.log.destroyed == p.log.destroyed && r.pool.log.dropped == p.log.dropped
    // Fast path: the front element, no factory call, the rest of the buffer in place.
    ensures |p.idle| > 0 ==>
      && r.result == Ok(p.idle[0])
      && r.pool.idle == p.idle[1..]
      && r.pool.log == p.log
    // Empty buffer: create is called exactly once (never when maxSize <= 0), and the buffer stays empty.
    ensures |p.idle| == 0 ==>
      && r.pool.idle == []
      && r.pool.log.createCalls == p.log.createCalls + (if p.cfg.maxSize > 0 then 1 else 0)
    ensures |p.idle| == 0 && r.result.Ok? ==> r.result.value == p.log.nextId && r.pool.log.nextId == p.log.nextId + 1
    ensures r.result.Ok? ==> r.pool.borrowed == p.borrowed + {r.result.value}
    ensures r.result.Err? ==> r.pool.idle == p.idle && r.pool.borrowed == p.borrowed && r.pool.log.nextId == p.log.nextId
    ensures r.result == Err(CreationFailed) <==>
      |p.idle| == 0 && p.cfg.maxSize > 0 && f.create(p.log.createCalls) == CreateThrows
    ensures r.result == Err(BorrowTimedOut) <==>
      |p.idle| == 0 && (p.cfg.maxSize <= 0 || f.create(p.log.createCalls) == Null)
    // It hands out an object exactly when one is idle or the lazy create yields one.
    ensures r.result.Ok? <==>
      |p.idle| > 0 || (p.cfg.maxSize > 0 && f.create(p.log.createCalls) == Fresh)
  {
    if |p.idle| > 0 then
      var o := p.idle[0];
      Reply(p.(idle := p.idle[1..], borrowed := p.borrowed + {o}), Ok(o))
    else if |p.idle| < p.cfg.maxSize then
      var called := p.(log := p.log.(createCalls := p.log.createCalls + 1));
      match f.create(p.log.createCalls)
      case CreateThrows => Reply(called, Err(CreationFailed))
      case Null => Reply(called, Err(BorrowTimedOut))
      case Fresh =>
        var o := p.log.nextId;
        Reply(called.(borrowed := p.borrowed + {o}, log := called.log.(nextId := o + 1)), Ok(o))
    else
      Reply(p, Err(BorrowTimedOut))
  }

  /** `returnObject`: validate first; an invalid object, or one that finds the buffer at capacity,
      is destroyed (a failure of that destroy is not reported); otherwise it joins the back of the buffer. */
  function ReturnObject(f: Factory, p: Pool, o: ObjId): (r: Reply<()>)
    ensures r.pool.cfg == p.cfg
    ensures r.pool.log.createCalls == p.log.createCalls && r.pool.log.nextId == p.log.nextId
    ensures r.pool.log.dropped == p.log.dropped
    // validate is called exactly once, whatever the buffer holds.
    ensures r.pool.log.validated == p.log.validated + [o]
    ensures var v := f.validate(|p.log.validated|, o);
      && (v == ValidateThrows ==>
            r.result == Err(ValidationFailed) && r.pool.idle == p.idle && r.pool.borrowed == p.borrowed
            && r.pool.log.destroyed == p.log.destroyed)
      && (v != ValidateThrows ==> r.result == Ok(()) && r.pool.borrowed == p.borrowed - {o})
      && (v == Invalid || (v == Valid && |p.idle| >= p.cfg.maxSize) ==>
            r.pool.idle == p.idle && r.pool.log.destroyed == p.log.destroyed + [o])
      && (v == Valid && |p.idle| < p.cfg.maxSize ==>
            r.pool.idle == p.idle + [o] && r.pool.log.destroyed == p.log.destroyed)
  {
    var v := f.validate(|p.log.validated|, o);
    var checked := p.(log := p.log.(validated := p.log.validated + [o]));
    if v == ValidateThrows then
      Reply(checked, Err(ValidationFailed))
    else if v == Invalid || |p.idle| >= p.cfg.maxSize then
      Reply(checked.(borrowed := p.borrowed - {o},
                     log := checked.log.(destroyed := p.log.destroyed + [o])), Ok(()))
    else
      Reply(checked.(idle := p.idle + [o], borrowed := p.borrowed - {o}), Ok(()))
  }

  /** `invalidateObject`: destroy the object unconditionally, without validating it and without
      touching the buffer; a failure of that destroy is not reported. */
  function InvalidateObject(p: Pool, o: ObjId): (r: Pool)
    ensures r.cfg == p.cfg && r.idle == p.idle && r.borrowed == p.borrowed - {o}
    ensures r.log.validated == p.log.validated && r.log.createCalls == p.log.createCalls
    ensures r.log.nextId == p.log.nextId && r.log.dropped == p.log.dropped
    ensures r.log.destroyed == p.log.destroyed + [o]
  {
    p.(borrowed := p.borrowed - {o}, log := p.log.(destroyed := p.log.destroyed + [o]))
  }

  /** `close`: poll the buffer until it is empty, attempting to destroy every object taken; the call
      fails with a closure error, after every destroy has been attempted, when any of them failed.
      Borrowed objects are left alone. */
  function Close(f: Factory, p: Pool): (r: Reply<()>)
    ensures r.pool == p.(idle := [], log := p.log.(destroyed := p.log.destroyed + p.idle))
    ensures r.result.Ok? <==> AllDestroy(f, |p.log.destroyed|, p.idle)
    ensures r.result.Err? ==> r.result.error == ClosureFailed
    decreases |p.idle|
  {
    if |p.idle| == 0 then Reply(p, Ok(()))
    else
      var o := p.idle[0];
      var destroyedOk := f.destroy(|p.log.destroyed|, o);
      var rest := Close(f, p.(idle := p.idle[1..], log := p.log.(destroyed := p.log.destroyed + [o])));
      assert p.log.destroyed + [o] + p.idle[1..] == p.log.destroyed + p.idle;
      Reply(rest.pool, if destroyedOk then rest.result else Err(ClosureFailed))
  }

  /** `borrowObjects`: count borrows one after the other; the first failure aborts the batch and is
      raised, and objects already borrowed by it stay borrowed. */
  function BorrowObjects(f: Factory, p: Pool, count: int): (r: Reply<seq<ObjId>>)
    ensures r.result.Ok? ==> |r.result.value| == if count < 0 then 0 else count
    ensures r.result.Ok? ==> r.pool.borrowed == p.borrowed + Elems(r.result.value)
    ensures p.borrowed <= r.pool.borrowed
    ensures r.pool.cfg == p.cfg && r.pool.log.validated == p.log.validated
    ensures r.pool.log.destroyed == p.log.destroyed && r.pool.log.dropped == p.log.dropped
    ensures r.result.Err? ==> r.result.error in {CreationFailed, BorrowTimedOut}
    decreases if count < 0 then 0 else count
  {
    if count <= 0 then Reply(p, Ok([]))
    else
      var first := BorrowObject(f, p);
      if first.result.Err? then Reply(first.pool, Err(first.result.error))
      else
        var rest := BorrowObjects(f, first.pool, count - 1);
        match rest.result
        case Err(e) => Reply(rest.pool, Err(e))
        case Ok(objs) =>
          ElemsConcat([first.result.value], objs);
          Reply(rest.pool, Ok([first.result.value] + objs))
  }

  /** `returnObjects`: return each object in turn; a validation error aborts the batch and is raised. */
  function ReturnObjects(f: Factory, p: Pool, objs: seq<ObjId>): (r: Reply<()>)
    ensures r.result.Ok? ==> r.pool.log.validated == p.log.validated + objs
    ensures r.result.Ok? ==> r.pool.borrowed == p.borrowed - Elems(objs)
    ensures r.result.Err? ==> r.result.error == ValidationFailed
    ensures r.pool.cfg == p.cfg && r.pool.log.createCalls == p.log.createCalls
    ensures r.pool.log.nextId == p.log.nextId && r.pool.log.dropped == p.log.dropped
    // Objects already idle or destroyed stay so; returned objects are only appended.
    ensures p.idle <= r.pool.idle && p.log.destroyed <= r.pool.log.destroyed
    ensures |p.idle| <= p.cfg.maxSize ==> |r.pool.idle| <= p.cfg.maxSize
    // On success every returned object went to the back of the buffer or to destruction, none elsewhere.
    ensures r.result.Ok? ==>
      |r.pool.idle| + |r.pool.log.destroyed| == |p.idle| + |p.log.destroyed| + |objs|
    ensures r.result.Ok? ==> Elems(objs) <= Elems(r.pool.idle) + Elems(r.pool.log.destroyed)
    decreases |objs|
  {
    if |objs| == 0 then Reply(p, Ok(()))
    else
      var first := ReturnObject(f, p, objs[0]);
      if first.result.Err? then Reply(first.pool, Err(ValidationFailed))
      else
        var rest := ReturnObjects(f, first.pool, objs[1..]);
        assert p.log.validated + [objs[0]] + objs[1..] == p.log.validated + objs;
        assert Elems(objs) == {objs[0]} + Elems(objs[1..]);
        assert rest.result.Ok? ==> objs[0] in Elems(rest.pool.idle) + Elems(rest.pool.log.destroyed) by {
          if rest.result.Ok? {
            var q := first.pool;
            assert objs[0] in Elems(q.idle) + Elems(q.log.destroyed) by {
              if objs[0] !in Elems(q.idle) {
                assert q.log.destroyed[|q.log.destroyed| - 1] == objs[0];
              } else {}
            }
            assert Elems(q.idle) <= Elems(rest.pool.idle);
            assert Elems(q.log.destroyed) <= Elems(rest.pool.log.destroyed);
          }
        }
        rest
  }
}
