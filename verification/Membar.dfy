/** Shared-memory barrier insertion: the block state, the transfer function, and the worklist. */
module Membar {
  import opened Basics

  // ---------------------------------------------------------------- the state of a block

  const ALL_INTERVALS := Interval(0, SIZE_MAX)

  type OpId = nat
  type Block = nat
  type IntervalMap = map<Interval, set<OpId>>
  /** filter(a, b) exempts the ordered pair of operations; a missing callback is the constant false. */
  type Filter = (OpId, OpId) -> bool

  /** The accesses not yet separated from the present by a barrier: the value of a BlockInfo. */
  datatype Pending = Pending(readers: IntervalMap, writers: IntervalMap)

  const EMPTY := Pending(map[], map[])

  function JoinMap(a: IntervalMap, b: IntervalMap): IntervalMap {
    map i | i in a.Keys + b.Keys :: (if i in a then a[i] else {}) + (if i in b then b[i] else {})
  }

  function Joined(p: Pending, q: Pending): Pending {
    Pending(JoinMap(p.readers, q.readers), JoinMap(p.writers, q.writers))
  }

  predicate Has(m: IntervalMap, i: Interval, o: OpId) {
    i in m && o in m[i]
  }

  ghost predicate Hits(l: IntervalMap, r: IntervalMap, filter: Filter) {
    exists i, a, j, b :: Has(l, i, a) && Has(r, j, b) && i.Intersects(j) && !filter(a, b)
  }

  /** Two states conflict when they hold intersecting accesses, one a write, that no filter exempts. */
  ghost predicate Conflict(p: Pending, q: Pending, filter: Filter) {
    || Hits(p.writers, q.readers, filter)
    || Hits(p.readers, q.writers, filter)
    || Hits(p.writers, q.writers, filter)
  }

  /** The mutable state threaded through one visit of a block. */
  class BlockInfo {
    var syncReadIntervals: IntervalMap
    var syncWriteIntervals: IntervalMap

    ghost function Value(): Pending
      reads this
    {
      Pending(syncReadIntervals, syncWriteIntervals)
    }

    constructor (p: Pending)
      ensures Value() == p
    {
      syncReadIntervals, syncWriteIntervals := p.readers, p.writers;
    }

    method Join(other: Pending)
      modifies this
      ensures Value() == Joined(old(Value()), other)
    {
      syncReadIntervals := JoinInto(syncReadIntervals, other.readers);
      syncWriteIntervals := JoinInto(syncWriteIntervals, other.writers);
    }

    method Sync()
      modifies this
      ensures Value() == EMPTY
    {
      syncReadIntervals, syncWriteIntervals := map[], map[];
    }

    method IsIntersected(other: Pending, filter: Filter) returns (hit: bool)
      ensures hit <==> Conflict(Value(), other, filter)
    {
      hit := FindHit(syncWriteIntervals, other.readers, filter);
      if !hit {
        hit := FindHit(syncReadIntervals, other.writers, filter);
        if !hit {
          hit := FindHit(syncWriteIntervals, other.writers, filter);
        }
      }
    }
  }

  /** Inserts the operations of every interval of `other` into the entry for that interval. */
  method JoinInto(m: IntervalMap, other: IntervalMap) returns (r: IntervalMap)
    ensures r == JoinMap(m, other)
  {
    hide JoinMap;
    JoinNothing(m);
    r := m;
    var todo := other.Keys;
    ghost var done: IntervalMap := map[];
    while todo != {}
      invariant todo <= other.Keys && done.Keys == other.Keys - todo
      invariant forall i :: i in done ==> done[i] == other[i]
      invariant r == JoinMap(m, done)
      decreases todo
    {
      var i :| i in todo;
      JoinOneMore(m, done, i, other[i]);
      r := r[i := (if i in r then r[i] else {}) + other[i]];
      todo := todo - {i};
      done := done[i := other[i]];
    }
    assert done == other;
  }

  lemma JoinNothing(m: IntervalMap)
    ensures JoinMap(m, map[]) == m
  {
    var r := JoinMap(m, map[]);
    assert r.Keys == m.Keys;
    forall i | i in m
      ensures r[i] == m[i]
    {
    }
  }

  lemma JoinOneMore(m: IntervalMap, done: IntervalMap, i: Interval, ops: set<OpId>)
    requires i !in done
    ensures var r := JoinMap(m, done);
      r[i := (if i in r then r[i] else {}) + ops] == JoinMap(m, done[i := ops])
  {
    var r := JoinMap(m, done);
    var l, r' := r[i := (if i in r then r[i] else {}) + ops], JoinMap(m, done[i := ops]);
    assert l.Keys == r'.Keys;
    forall k | k in l
      ensures l[k] == r'[k]
    {
      assert k != i && k in done ==> done[i := ops][k] == done[k];
    }
  }

  /** Searches two interval maps for an intersecting pair of intervals with an unfiltered pair of operations. */
  method FindHit(l: IntervalMap, r: IntervalMap, filter: Filter) returns (hit: bool)
    ensures hit <==> Hits(l, r, filter)
  {
    var ls := set i, a | i in l && a in l[i] :: (i, a);
    var rs := set j, b | j in r && b in r[j] :: (j, b);
    assert forall i, a :: Has(l, i, a) <==> (i, a) in ls;
    assert forall j, b :: Has(r, j, b) <==> (j, b) in rs;
    var xs := ls;
    while xs != {}
      invariant xs <= ls
      invariant forall x, y :: x in ls - xs && y in rs ==> !(x.0.Intersects(y.0) && !filter(x.1, y.1))
      decreases xs
    {
      var x :| x in xs;
      var ys := rs;
      while ys != {}
        invariant ys <= rs
        invariant forall y :: y in rs - ys ==> !(x.0.Intersects(y.0) && !filter(x.1, y.1))
        decreases ys
      {
        var y :| y in ys;
        if x.0.Intersects(y.0) && !filter(x.1, y.1) {
          assert Has(l, x.0, x.1) && Has(r, y.0, y.1);
          return true;
        }
        ys := ys - {y};
      }
      xs := xs - {x};
    }
    return false;
  }
}
