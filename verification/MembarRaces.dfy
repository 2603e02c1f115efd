/** Race freedom in terms of what the operations read and write. */
module MembarRaces {
  import opened Basics
  import opened Membar
  import opened MembarTransfer

  // ---------------------------------------------------------------- accesses of an operation

  /** An operation reads its input buffers, all of memory when it signals other threads, and its scratch buffer. */
  predicate ReadsAt(op: Op, i: Interval) {
    op.Generic? && (i in op.inputs || (op.arrives && i == Interval(0, SIZE_MAX)) || op.scratch == Some(i))
  }

  predicate WritesAt(op: Op, i: Interval) {
    op.Generic? && (i in op.outputs || (op.arrives && i == Interval(0, SIZE_MAX)) || op.scratch == Some(i))
  }

  /** The operations access common memory, one of them writing it, and are not exempt. */
  ghost predicate Clash(a: Op, b: Op, filter: Filter) {
    && a.Generic? && b.Generic? && !filter(a.id, b.id)
    && exists i: Interval, j: Interval :: i.Intersects(j) &&
         ((WritesAt(a, i) && ReadsAt(b, j)) || (ReadsAt(a, i) && WritesAt(b, j)) || (WritesAt(a, i) && WritesAt(b, j)))
  }

  /** A barrier, or a scratch operation with one inside. */
  predicate Synchronises(op: Op) {
    op.Barrier? || (op.Generic? && op.scratch.Some? && !op.warpSync)
  }

  /** Operations that clash have a synchronisation between them. */
  ghost predicate ClashFree(ops: seq<Op>, filter: Filter) {
    forall i: nat, j: nat :: i < j < |ops| ==> Apart(ops, i, j, filter)
  }

  /** The operations at places i < j, if they clash, have a synchronisation between them. */
  ghost predicate Apart(ops: seq<Op>, i: nat, j: nat, filter: Filter)
    requires i < j < |ops|
  {
    Clash(ops[i], ops[j], filter) ==> exists k :: i < k < j && Synchronises(ops[k])
  }

  // ---------------------------------------------------------------- the analysis collects these accesses

  lemma FootprintFields(op: Op)
    requires op.Generic? && !Malformed(op)
    ensures forall i, o :: Has(Footprint(op).readers, i, o) <==> ReadsAt(op, i) && o == op.id
    ensures forall i, o :: Has(Footprint(op).writers, i, o) <==> WritesAt(op, i) && o == op.id
  {
  }

  /** A state conflicts with the first access of an operation exactly when it conflicts with all it accesses. */
  lemma FirstAccessTells(p: Pending, op: Op, filter: Filter)
    requires op.Generic? && op.scratch.Some?
    ensures Conflict(p, ScratchWrite(op), filter) <==> Conflict(p, Footprint(op), filter)
  {
    var w, rw := ScratchWrite(op), ScratchReadWrite(op);
    assert forall i, o :: Has(rw.readers, i, o) <==> Has(w.writers, i, o);
    assert Hits(p.writers, rw.readers, filter) <==> Hits(p.writers, w.writers, filter);
    assert !Hits(p.writers, w.readers, filter);
  }

  lemma ConflictIsClash(a: Op, b: Op, filter: Filter)
    requires a.Generic? && b.Generic? && !Malformed(a) && !Malformed(b)
    ensures Conflict(Footprint(a), Footprint(b), filter) <==> Clash(a, b, filter)
  {
    FootprintFields(a);
    FootprintFields(b);
    hide Footprint, Malformed, ReadsAt, WritesAt;
    var p, q := Footprint(a), Footprint(b);
    if Clash(a, b, filter) {
      var i: Interval, j: Interval :| i.Intersects(j) &&
        ((WritesAt(a, i) && ReadsAt(b, j)) || (ReadsAt(a, i) && WritesAt(b, j)) || (WritesAt(a, i) && WritesAt(b, j)));
      if WritesAt(a, i) && ReadsAt(b, j) {
        assert Has(p.writers, i, a.id) && Has(q.readers, j, b.id);
      } else if ReadsAt(a, i) && WritesAt(b, j) {
        assert Has(p.readers, i, a.id) && Has(q.writers, j, b.id);
      } else {
        assert Has(p.writers, i, a.id) && Has(q.writers, j, b.id);
      }
    }
  }

  // ---------------------------------------------------------------- traces and operations

  /** No operation that clashes with a comes before the first synchronisation. */
  ghost predicate Clear(a: Op, ops: seq<Op>, filter: Filter) {
    forall j :: 0 <= j < |ops| && Clash(a, ops[j], filter) ==> exists k :: 0 <= k < j && Synchronises(ops[k])
  }

  lemma ClearCons(a: Op, b: Op, rest: seq<Op>, filter: Filter)
    ensures Clear(a, [b] + rest, filter) <==> !Clash(a, b, filter) && (Synchronises(b) || Clear(a, rest, filter))
  {
    hide Clash, Synchronises;
    var all := [b] + rest;
    if Clear(a, all, filter) {
      assert all[0] == b;
      if !Synchronises(b) {
        forall j | 0 <= j < |rest| && Clash(a, rest[j], filter)
          ensures exists k :: 0 <= k < j && Synchronises(rest[k])
        {
          assert all[j + 1] == rest[j];
          var k :| 0 <= k < j + 1 && Synchronises(all[k]);
          assert rest[k - 1] == all[k];
        }
      }
    }
    if !Clash(a, b, filter) && (Synchronises(b) || Clear(a, rest, filter)) {
      forall j | 0 <= j < |all| && Clash(a, all[j], filter)
        ensures exists k :: 0 <= k < j && Synchronises(all[k])
      {
        if Synchronises(b) {
          assert Synchronises(all[0]);
        } else {
          var k :| 0 <= k < j - 1 && Synchronises(rest[k]);
          assert all[k + 1] == rest[k];
        }
      }
    }
  }

  lemma ApartMoves(a: Op, rest: seq<Op>, i: nat, j: nat, filter: Filter)
    requires i < j < |rest|
    ensures Apart(rest, i, j, filter) <==> Apart([a] + rest, i + 1, j + 1, filter)
  {
    hide Clash, Synchronises;
    var all := [a] + rest;
    assert all[i + 1] == rest[i] && all[j + 1] == rest[j];
    if k :| i < k < j && Synchronises(rest[k]) {
      assert all[k + 1] == rest[k];
    }
    if k :| i + 1 < k < j + 1 && Synchronises(all[k]) {
      assert rest[k - 1] == all[k];
    }
  }

  lemma ApartFirst(a: Op, rest: seq<Op>, j: nat, filter: Filter)
    requires j < |rest|
    ensures Apart([a] + rest, 0, j + 1, filter) <==>
      (Clash(a, rest[j], filter) ==> exists k :: 0 <= k < j && Synchronises(rest[k]))
  {
    hide Clash, Synchronises;
    var all := [a] + rest;
    assert all[0] == a && all[j + 1] == rest[j];
    if k :| 0 <= k < j && Synchronises(rest[k]) {
      assert all[k + 1] == rest[k];
    }
    if k :| 0 < k < j + 1 && Synchronises(all[k]) {
      assert rest[k - 1] == all[k];
    }
  }

  lemma ClashFreeCons(a: Op, rest: seq<Op>, filter: Filter)
    ensures ClashFree([a] + rest, filter) <==> ClashFree(rest, filter) && Clear(a, rest, filter)
  {
    hide Clash, Synchronises, Apart;
    var all := [a] + rest;
    forall i: nat, j: nat | i < j < |rest|
      ensures Apart(rest, i, j, filter) <==> Apart(all, i + 1, j + 1, filter)
    {
      ApartMoves(a, rest, i, j, filter);
    }
    forall j: nat | j < |rest|
      ensures Apart(all, 0, j + 1, filter) <==>
              (Clash(a, rest[j], filter) ==> exists k :: 0 <= k < j && Synchronises(rest[k]))
    {
      ApartFirst(a, rest, j, filter);
    }
    if ClashFree(rest, filter) && Clear(a, rest, filter) {
      forall i: nat, j: nat | i < j < |all|
        ensures Apart(all, i, j, filter)
      {
        if i > 0 {
          assert Apart(rest, i - 1, j - 1, filter);
          ApartMoves(a, rest, i - 1, j - 1, filter);
        } else {
          ApartFirst(a, rest, j - 1, filter);
        }
      }
    }
  }

  /** What the accesses of one more operation mean for a pending state. */
  lemma UnhurtOp(p: Pending, op: Op, tr: seq<Event>, filter: Filter)
    ensures Unhurt(p, Events(op) + tr, filter) <==>
      (op.Generic? ==> !Conflict(p, Footprint(op), filter)) && (Synchronises(op) || Unhurt(p, tr, filter))
  {
    hide Conflict, Unhurt;
    var ev := Events(op);
    if |ev| == 0 {
      assert ev + tr == tr;
    } else if |ev| == 1 {
      UnhurtCons(p, ev[0], tr, filter);
      assert ev + tr == [ev[0]] + tr;
    } else {
      var rest := [ev[2]] + tr;
      assert ev + tr == [ev[0]] + ([Sync] + rest);
      UnhurtCons(p, ev[0], [Sync] + rest, filter);
      UnhurtCons(p, Sync, rest, filter);
      FirstAccessTells(p, op, filter);
    }
  }

  lemma RaceFreeOp(op: Op, tr: seq<Event>, filter: Filter)
    ensures RaceFree(Events(op) + tr, filter) <==>
      RaceFree(tr, filter) && (op.Generic? ==> Unhurt(Footprint(op), tr, filter))
  {
    hide Conflict, Unhurt, RaceFree;
    var ev := Events(op);
    if |ev| == 0 {
      assert ev + tr == tr;
    } else if |ev| == 1 {
      RaceFreeCons(ev[0], tr, filter);
      assert ev + tr == [ev[0]] + tr;
    } else {
      var rest := [ev[2]] + tr;
      assert ev + tr == [ev[0]] + ([Sync] + rest);
      RaceFreeCons(ev[0], [Sync] + rest, filter);
      UnhurtCons(ev[0].acc, Sync, rest, filter);
      RaceFreeCons(Sync, rest, filter);
      RaceFreeCons(ev[2], tr, filter);
    }
  }

  lemma {:induction false} UnhurtIsClear(a: Op, ops: seq<Op>, filter: Filter)
    requires a.Generic? && !Malformed(a) && WellFormed(ops)
    ensures Unhurt(Footprint(a), Trace(ops), filter) <==> Clear(a, ops, filter)
    decreases |ops|
  {
    if ops == [] {
    } else {
      hide Conflict, Unhurt, Clear, Footprint, Clash, Malformed;
      var b, rest := ops[0], ops[1..];
      assert ops == [b] + rest && !Malformed(b);
      assert WellFormed(rest) by { assert forall k :: 0 <= k < |rest| ==> rest[k] == ops[k + 1]; }
      UnhurtIsClear(a, rest, filter);
      UnhurtOp(Footprint(a), b, Trace(rest), filter);
      ClearCons(a, b, rest, filter);
      if b.Generic? {
        ConflictIsClash(a, b, filter);
      } else {
        NoClash(a, b, filter);
      }
    }
  }

  lemma NoClash(a: Op, b: Op, filter: Filter)
    requires !a.Generic? || !b.Generic?
    ensures !Clash(a, b, filter)
  {
  }

  lemma NeverClashes(a: Op, ops: seq<Op>, filter: Filter)
    requires !a.Generic?
    ensures Clear(a, ops, filter)
  {
  }

  /** The trace of an execution is race free exactly when its operations are. */
  lemma {:induction false} RaceFreeIsClashFree(ops: seq<Op>, filter: Filter)
    requires WellFormed(ops)
    ensures RaceFree(Trace(ops), filter) <==> ClashFree(ops, filter)
    decreases |ops|
  {
    if ops == [] {
    } else {
      hide Conflict, Unhurt, Clear, Footprint, Clash, Malformed, RaceFree, ClashFree;
      var a, rest := ops[0], ops[1..];
      assert ops == [a] + rest && !Malformed(a);
      assert WellFormed(rest) by { assert forall k :: 0 <= k < |rest| ==> rest[k] == ops[k + 1]; }
      RaceFreeIsClashFree(rest, filter);
      RaceFreeOp(a, Trace(rest), filter);
      ClashFreeCons(a, rest, filter);
      if a.Generic? {
        UnhurtIsClear(a, rest, filter);
      } else {
        NeverClashes(a, rest, filter);
      }
    }
  }

  /** Barriers do not change whether a block is well formed. */
  lemma {:induction false} ExtendsWellFormed(a: seq<Op>, b: seq<Op>)
    requires Extends(a, b)
    ensures WellFormed(a) <==> WellFormed(b)
    decreases |b|
  {
    hide Malformed;
    if b != [] {
      WellFormedCons(b);
      if a != [] && a[0] == b[0] && Extends(a[1..], b[1..]) {
        ExtendsWellFormed(a[1..], b[1..]);
        WellFormedCons(a);
      } else {
        ExtendsWellFormed(a, b[1..]);
        BarrierIsFine(b[0]);
      }
    }
  }

  lemma WellFormedCons(ops: seq<Op>)
    requires ops != []
    ensures WellFormed(ops) <==> !Malformed(ops[0]) && WellFormed(ops[1..])
  {
    hide Malformed;
    assert forall k :: 0 < k < |ops| ==> ops[k] == ops[1..][k - 1];
  }

  lemma BarrierIsFine(op: Op)
    requires op.Barrier?
    ensures !Malformed(op)
  {
  }
}
