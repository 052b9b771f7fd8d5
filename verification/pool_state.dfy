/** The state of one pool: its configuration, the idle buffer, the objects out on loan, and a log
    of the factory effects the pool has caused. */
module PoolState {
  import opened Outcomes
  import opened ObjectFactory

  /** The constructor's parameters, as the Java `int`s they are. */
  datatype Config = Config(minSize: int, maxSize: int, timeout: int)

  /** What the pool has asked of its factory so far. */
  datatype Log = Log(
    createCalls: nat,        // number of create calls made
    nextId: nat,             // the objects 0 .. nextId-1 have been created
    validated: seq<ObjId>,   // the argument of every validate call, in call order
    destroyed: seq<ObjId>,   // the argument of every destroy call, in call order
    dropped: set<ObjId>)     // created during preload but refused by a full buffer

  /** `idle` is the bounded FIFO buffer, front first. The source does not track borrowed objects;
      `borrowed` is the bookkeeping that states who owns what. */
  datatype Pool = Pool(cfg: Config, idle: seq<ObjId>, borrowed: set<ObjId>, log: Log)

  /** The pool after an operation, together with what the operation returned or raised. */
  datatype Reply<+T> = Reply(pool: Pool, result: Result<T>)

  predicate NoDup(s: seq<ObjId>) {
    forall i, j | 0 <= i < j < |s| :: s[i] != s[j]
  }

  function Elems(s: seq<ObjId>): set<ObjId> {
    set x | x in s
  }

  /** The ids lo, lo+1, ..., hi-1 in increasing order. */
  function IdRange(lo: nat, hi: nat): (r: seq<ObjId>)
    ensures |r| == if lo <= hi then hi - lo else 0
    ensures forall i | 0 <= i < |r| :: r[i] == lo + i
  {
    if lo < hi then seq(hi - lo, i => lo + i) else []
  }

  /** The ids lo <= id < hi, as a set. */
  function IdSet(lo: nat, hi: nat): (r: set<ObjId>)
    ensures forall id :: id in r <==> lo <= id < hi
  {
    IdRangeMembers(lo, hi);
    Elems(IdRange(lo, hi))
  }

  lemma IdRangeMembers(lo: nat, hi: nat)
    ensures forall id :: id in IdRange(lo, hi) <==> lo <= id < hi
  {
    var r := IdRange(lo, hi);
    forall id | lo <= id < hi ensures id in r {
      assert r[id - lo] == id;
    }
  }

  function Min(a: int, b: int): int {
    if a < b then a else b
  }

  /** The invariant every operation keeps: the capacity bound, no duplicate in the buffer, and
      every object ever created is in exactly one of buffer, borrowed, destroyed or dropped. */
  predicate Inv(p: Pool) {
    && p.cfg.maxSize > 0
    && |p.idle| <= p.cfg.maxSize
    && NoDup(p.idle)
    && NoDup(p.log.destroyed)
    && Elems(p.idle) !! p.borrowed
    && Elems(p.idle) !! Elems(p.log.destroyed)
    && Elems(p.idle) !! p.log.dropped
    && p.borrowed !! Elems(p.log.destroyed)
    && p.borrowed !! p.log.dropped
    && Elems(p.log.destroyed) !! p.log.dropped
    && Elems(p.idle) + p.borrowed + Elems(p.log.destroyed) + p.log.dropped == IdSet(0, p.log.nextId)
  }

  lemma ElemsAppend(s: seq<ObjId>, x: ObjId)
    ensures Elems(s + [x]) == Elems(s) + {x}
    ensures NoDup(s) && x !in s ==> NoDup(s + [x])
  {
  }

  lemma ElemsConcat(a: seq<ObjId>, b: seq<ObjId>)
    ensures Elems(a + b) == Elems(a) + Elems(b)
  {
  }

  lemma ElemsTail(s: seq<ObjId>)
    requires |s| > 0 && NoDup(s)
    ensures NoDup(s[1..])
    ensures Elems(s[1..]) == Elems(s) - {s[0]}
  {
    assert forall x | x in s[1..] :: x != s[0];
    assert forall x | x in s && x != s[0] :: x in s[1..];
  }

  lemma IdRangeElems(lo: nat, hi: nat)
    ensures NoDup(IdRange(lo, hi))
    ensures Elems(IdRange(lo, hi)) == IdSet(lo, hi)
  {
  }

  lemma IdRangeCons(lo: nat, hi: nat)
    requires lo < hi
    ensures [lo] + IdRange(lo + 1, hi) == IdRange(lo, hi)
  {
  }
}
