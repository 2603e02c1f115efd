/** What one visit of the barrier analysis does to a block, and what it means for the block's traces. */
module MembarTransfer {
  import opened Basics
  import opened Membar

  // ---------------------------------------------------------------- operations

  /**
   * An operation as the analysis sees it.  `Generic` carries the shared-memory buffers it reads and
   * writes, whether it signals other threads (and so must see every access complete), and its scratch
   * buffer if it has one; a warp-synchronous scratch operation holds no CTA-wide barrier inside.
   */
  datatype Op =
    | Barrier
    | AsyncWait
    | Generic(id: OpId, inputs: set<Interval>, outputs: set<Interval>, arrives: bool,
              scratch: Option<Interval>, warpSync: bool)

  /** The explicit accesses of an operation, gathered before scratch buffers are looked at. */
  function Explicit(op: Op): Pending
    requires op.Generic?
  {
    var all := if op.arrives then {ALL_INTERVALS} else {};
    Pending(map i | i in op.inputs + all :: {op.id}, map i | i in op.outputs + all :: {op.id})
  }

  /** Scratch operations must have no explicit accesses; the analysis aborts on one that has. */
  predicate Malformed(op: Op) {
    op.Generic? && op.scratch.Some? && (op.inputs + op.outputs != {} || op.arrives)
  }

  lemma ExplicitEmpty(op: Op)
    requires op.Generic?
    ensures Explicit(op) == EMPTY <==> op.inputs + op.outputs == {} && !op.arrives
  {
    var e := Explicit(op);
    if e == EMPTY {
      assert forall i :: i in op.inputs ==> i in e.readers;
      assert forall i :: i in op.outputs ==> i in e.writers;
      assert op.arrives ==> ALL_INTERVALS in e.readers;
    }
    if op.inputs + op.outputs == {} && !op.arrives {
      assert e.readers.Keys == {} && e.writers.Keys == {};
    }
  }

  predicate WellFormed(ops: seq<Op>) {
    forall k :: 0 <= k < |ops| ==> !Malformed(ops[k])
  }

  function ScratchWrite(op: Op): Pending
    requires op.Generic? && op.scratch.Some?
  {
    Pending(map[], map[op.scratch.value := {op.id}])
  }

  function ScratchReadWrite(op: Op): Pending
    requires op.Generic? && op.scratch.Some?
  {
    Pending(map[op.scratch.value := {op.id}], map[op.scratch.value := {op.id}])
  }

  /** Everything the operation leaves pending when no barrier follows it. */
  function Footprint(op: Op): Pending {
    if !op.Generic? then EMPTY else if op.scratch.Some? then ScratchReadWrite(op) else Explicit(op)
  }

  // ---------------------------------------------------------------- the transfer function

  /** The operations that replace one operation, and the state after them. */
  datatype Scan = Scan(ops: seq<Op>, out: Pending)

  ghost function StepOp(op: Op, beforeBarrier: bool, p: Pending, filter: Filter): Scan {
    match op
    case Barrier => Scan([Barrier], EMPTY)
    case AsyncWait => if beforeBarrier then Scan([AsyncWait], p) else Scan([AsyncWait, Barrier], EMPTY)
    case Generic(_, _, _, _, Some(_), warpSync) =>
      var insert := Conflict(p, ScratchWrite(op), filter);
      var kept := if insert || !warpSync then EMPTY else p;
      Scan(if insert then [Barrier, op] else [op], Joined(kept, ScratchReadWrite(op)))
    case Generic(_, _, _, _, None, _) =>
      var insert := Conflict(p, Explicit(op), filter);
      Scan(if insert then [Barrier, op] else [op], Joined(if insert then EMPTY else p, Explicit(op)))
  }

  predicate StartsWithBarrier(ops: seq<Op>) {
    ops != [] && ops[0].Barrier?
  }

  ghost function Transfer(ops: seq<Op>, p: Pending, filter: Filter): Scan {
    if ops == [] then Scan([], p)
    else
      var s := StepOp(ops[0], StartsWithBarrier(ops[1..]), p, filter);
      var rest := Transfer(ops[1..], s.out, filter);
      Scan(s.ops + rest.ops, rest.out)
  }

  // ---------------------------------------------------------------- traces

  /** What an execution does: CTA-wide synchronisations and accesses to shared memory. */
  datatype Event = Sync | Access(acc: Pending)

  /**
   * A scratch operation writes, synchronises unless it is warp-synchronous, then reads and may write
   * again.  The internal synchronisation of a warp-synchronous operation orders no other operation.
   */
  function Events(op: Op): seq<Event> {
    match op
    case Barrier => [Sync]
    case AsyncWait => []
    case Generic(_, _, _, _, Some(_), warpSync) =>
      if warpSync then [Access(ScratchReadWrite(op))]
      else [Access(ScratchWrite(op)), Sync, Access(ScratchReadWrite(op))]
    case Generic(_, _, _, _, None, _) => [Access(Explicit(op))]
  }

  function Trace(ops: seq<Op>): seq<Event> {
    if ops == [] then [] else Events(ops[0]) + Trace(ops[1..])
  }

  /** Any two conflicting accesses of a trace have a synchronisation between them. */
  ghost predicate RaceFree(tr: seq<Event>, filter: Filter) {
    forall i, j :: 0 <= i < j < |tr| && tr[i].Access? && tr[j].Access? && Conflict(tr[i].acc, tr[j].acc, filter)
      ==> exists k :: i < k < j && tr[k] == Sync
  }

  /** The state after a trace that starts in state p. */
  function After(p: Pending, tr: seq<Event>): Pending
    decreases |tr|
  {
    if tr == [] then p
    else After(if tr[0].Sync? then EMPTY else Joined(p, tr[0].acc), tr[1..])
  }

  /** No access of the trace conflicts with what is pending when it happens. */
  ghost predicate Safe(p: Pending, tr: seq<Event>, filter: Filter)
    decreases |tr|
  {
    tr == [] ||
    if tr[0].Sync? then Safe(EMPTY, tr[1..], filter)
    else !Conflict(p, tr[0].acc, filter) && Safe(Joined(p, tr[0].acc), tr[1..], filter)
  }

  /** Every asynchronous wait is followed by a barrier. */
  predicate WaitsSynced(ops: seq<Op>) {
    forall k :: 0 <= k < |ops| && ops[k].AsyncWait? ==> k + 1 < |ops| && ops[k + 1].Barrier?
  }

  // ---------------------------------------------------------------- traces: composition

  lemma {:induction false} AfterConcat(p: Pending, a: seq<Event>, b: seq<Event>)
    ensures After(p, a + b) == After(After(p, a), b)
    decreases |a|
  {
    if a == [] {
      assert a + b == b;
    } else {
      assert (a + b)[1..] == a[1..] + b;
      AfterConcat(if a[0].Sync? then EMPTY else Joined(p, a[0].acc), a[1..], b);
    }
  }

  lemma {:induction false} SafeConcat(p: Pending, a: seq<Event>, b: seq<Event>, filter: Filter)
    ensures Safe(p, a + b, filter) <==> Safe(p, a, filter) && Safe(After(p, a), b, filter)
    decreases |a|
  {
    if a == [] {
      assert a + b == b;
    } else {
      assert (a + b)[1..] == a[1..] + b;
      SafeConcat(if a[0].Sync? then EMPTY else Joined(p, a[0].acc), a[1..], b, filter);
    }
  }

  lemma {:induction false} TraceConcat(a: seq<Op>, b: seq<Op>)
    ensures Trace(a + b) == Trace(a) + Trace(b)
  {
    if a == [] {
      assert a + b == b;
    } else {
      assert (a + b)[1..] == a[1..] + b;
      TraceConcat(a[1..], b);
    }
  }

  // ---------------------------------------------------------------- safety is race freedom

  lemma ConflictJoined(p: Pending, a: Pending, q: Pending, filter: Filter)
    ensures Conflict(Joined(p, a), q, filter) <==> Conflict(p, q, filter) || Conflict(a, q, filter)
  {
    HitsJoined(p.writers, a.writers, q.readers, filter);
    HitsJoined(p.readers, a.readers, q.writers, filter);
    HitsJoined(p.writers, a.writers, q.writers, filter);
  }

  lemma HitsJoined(l: IntervalMap, l': IntervalMap, r: IntervalMap, filter: Filter)
    ensures Hits(JoinMap(l, l'), r, filter) <==> Hits(l, r, filter) || Hits(l', r, filter)
  {
  }

  /** No access of the trace that happens before its first synchronisation conflicts with p. */
  ghost predicate Unhurt(p: Pending, tr: seq<Event>, filter: Filter) {
    forall j :: 0 <= j < |tr| && tr[j].Access? && Conflict(p, tr[j].acc, filter)
      ==> exists k :: 0 <= k < j && tr[k] == Sync
  }

  lemma UnhurtCons(p: Pending, e: Event, tr: seq<Event>, filter: Filter)
    ensures Unhurt(p, [e] + tr, filter) <==>
      e.Sync? || (!Conflict(p, e.acc, filter) && Unhurt(p, tr, filter))
  {
    var all := [e] + tr;
    if Unhurt(p, all, filter) && e.Access? {
      assert all[0] == e;
      forall j | 0 <= j < |tr| && tr[j].Access? && Conflict(p, tr[j].acc, filter)
        ensures exists k :: 0 <= k < j && tr[k] == Sync
      {
        assert all[j + 1] == tr[j];
        var k :| 0 <= k < j + 1 && all[k] == Sync;
        assert tr[k - 1] == Sync;
      }
    }
    if e.Sync? {
      assert all[0] == Sync;
    } else if !Conflict(p, e.acc, filter) && Unhurt(p, tr, filter) {
      forall j | 0 <= j < |all| && all[j].Access? && Conflict(p, all[j].acc, filter)
        ensures exists k :: 0 <= k < j && all[k] == Sync
      {
        var k :| 0 <= k < j - 1 && tr[k] == Sync;
        assert all[k + 1] == Sync;
      }
    }
  }

  lemma RaceFreeCons(e: Event, tr: seq<Event>, filter: Filter)
    ensures RaceFree([e] + tr, filter) <==> RaceFree(tr, filter) && (e.Access? ==> Unhurt(e.acc, tr, filter))
  {
    hide Conflict;
    var all := [e] + tr;
    if RaceFree(all, filter) {
      forall i, j | 0 <= i < j < |tr| && tr[i].Access? && tr[j].Access? && Conflict(tr[i].acc, tr[j].acc, filter)
        ensures exists k :: i < k < j && tr[k] == Sync
      {
        assert all[i + 1] == tr[i] && all[j + 1] == tr[j];
        var k :| i + 1 < k < j + 1 && all[k] == Sync;
        assert tr[k - 1] == Sync;
      }
      if e.Access? {
        forall j | 0 <= j < |tr| && tr[j].Access? && Conflict(e.acc, tr[j].acc, filter)
          ensures exists k :: 0 <= k < j && tr[k] == Sync
        {
          assert all[0] == e && all[j + 1] == tr[j];
          var k :| 0 < k < j + 1 && all[k] == Sync;
          assert tr[k - 1] == Sync;
        }
      }
    }
    if RaceFree(tr, filter) && (e.Access? ==> Unhurt(e.acc, tr, filter)) {
      forall i, j | 0 <= i < j < |all| && all[i].Access? && all[j].Access? && Conflict(all[i].acc, all[j].acc, filter)
        ensures exists k :: i < k < j && all[k] == Sync
      {
        assert all[j] == tr[j - 1];
        if i == 0 {
          var k :| 0 <= k < j - 1 && tr[k] == Sync;
          assert all[k + 1] == Sync;
        } else {
          assert all[i] == tr[i - 1];
          var k :| i - 1 < k < j - 1 && tr[k] == Sync;
          assert all[k + 1] == Sync;
        }
      }
    }
  }

  /** The analysis's local check, made at every access, is exactly race freedom of the trace. */
  lemma {:induction false} SafeIsRaceFree(p: Pending, tr: seq<Event>, filter: Filter)
    ensures Safe(p, tr, filter) <==> RaceFree(tr, filter) && Unhurt(p, tr, filter)
    decreases |tr|
  {
    if tr != [] {
      var e, rest := tr[0], tr[1..];
      assert tr == [e] + rest;
      RaceFreeCons(e, rest, filter);
      UnhurtCons(p, e, rest, filter);
      if e.Sync? {
        SafeIsRaceFree(EMPTY, rest, filter);
        assert Unhurt(EMPTY, rest, filter);
      } else {
        SafeIsRaceFree(Joined(p, e.acc), rest, filter);
        UnhurtJoined(p, e.acc, rest, filter);
      }
    }
  }

  lemma UnhurtJoined(p: Pending, a: Pending, tr: seq<Event>, filter: Filter)
    ensures Unhurt(Joined(p, a), tr, filter) <==> Unhurt(p, tr, filter) && Unhurt(a, tr, filter)
  {
    forall j | 0 <= j < |tr| && tr[j].Access?
      ensures Conflict(Joined(p, a), tr[j].acc, filter) <==>
        Conflict(p, tr[j].acc, filter) || Conflict(a, tr[j].acc, filter)
    {
      ConflictJoined(p, a, tr[j].acc, filter);
    }
  }

  // ---------------------------------------------------------------- what the transfer function guarantees

  /** The rewritten block is safe from the state it was scanned in, and the state out is what it leaves pending. */
  lemma {:induction false} TransferIsSafe(ops: seq<Op>, p: Pending, filter: Filter)
    ensures var r := Transfer(ops, p, filter);
      Safe(p, Trace(r.ops), filter) && After(p, Trace(r.ops)) == r.out
    decreases |ops|
  {
    if ops != [] {
      var s := StepOp(ops[0], StartsWithBarrier(ops[1..]), p, filter);
      var rest := Transfer(ops[1..], s.out, filter);
      StepIsSafe(ops[0], StartsWithBarrier(ops[1..]), p, filter);
      TransferIsSafe(ops[1..], s.out, filter);
      TraceConcat(s.ops, rest.ops);
      SafeConcat(p, Trace(s.ops), Trace(rest.ops), filter);
      AfterConcat(p, Trace(s.ops), Trace(rest.ops));
    }
  }

  lemma AfterOne(p: Pending, e: Event)
    ensures After(p, [e]) == if e.Sync? then EMPTY else Joined(p, e.acc)
  {
  }

  lemma TraceOne(op: Op)
    ensures Trace([op]) == Events(op)
    ensures Trace([Barrier, op]) == [Sync] + Events(op)
    ensures Trace([op, Barrier]) == Events(op) + [Sync]
  {
  }

  lemma StepIsSafe(op: Op, beforeBarrier: bool, p: Pending, filter: Filter)
    ensures var s := StepOp(op, beforeBarrier, p, filter);
      Safe(p, Trace(s.ops), filter) && After(p, Trace(s.ops)) == s.out
  {
    var s := StepOp(op, beforeBarrier, p, filter);
    TraceOne(op);
    if s.ops == [Barrier, op] {
      assert Trace(s.ops)[1..] == Events(op);
    }
    SafeEvents(op, if s.ops == [Barrier, op] then EMPTY else p, filter);
  }

  /** The check made before a scratch operation looks only at its write; that covers its reads as well. */
  lemma SafeEvents(op: Op, p: Pending, filter: Filter)
    ensures Safe(p, Events(op), filter) <==>
      (op.Generic? ==> !Conflict(p, if op.scratch.Some? then ScratchWrite(op) else Explicit(op), filter))
    ensures op.Generic? ==>
      After(p, Events(op)) == Joined(if op.scratch.Some? && !op.warpSync then EMPTY else p, Footprint(op))
  {
    var ev := Events(op);
    if |ev| == 1 {
      assert ev[1..] == [];
      if op.Generic? && op.scratch.Some? {
        var w, rw := ScratchWrite(op), ScratchReadWrite(op);
        assert forall i, o :: Has(rw.readers, i, o) <==> Has(w.writers, i, o);
        assert Hits(p.writers, rw.readers, filter) <==> Hits(p.writers, w.writers, filter);
        assert !Hits(p.writers, w.readers, filter);
      }
    } else if |ev| == 3 {
      var last := [ev[2]];
      assert ev[1..] == [Sync] + last && ([Sync] + last)[1..] == last && last[1..] == [];
      assert !Conflict(EMPTY, ev[2].acc, filter);
      AfterOne(EMPTY, ev[2]);
      assert Safe(EMPTY, last, filter) && After(EMPTY, last) == Joined(EMPTY, ev[2].acc);
      assert After(Joined(p, ev[0].acc), [Sync] + last) == After(EMPTY, last);
    }
  }

  lemma {:induction false} TransferSyncsWaits(ops: seq<Op>, p: Pending, filter: Filter)
    ensures WaitsSynced(Transfer(ops, p, filter).ops)
    ensures StartsWithBarrier(ops) ==> StartsWithBarrier(Transfer(ops, p, filter).ops)
    decreases |ops|
  {
    hide Conflict, Joined, Explicit, ScratchWrite, ScratchReadWrite;
    if ops != [] {
      var s := StepOp(ops[0], StartsWithBarrier(ops[1..]), p, filter);
      TransferSyncsWaits(ops[1..], s.out, filter);
    }
  }

  /** A block that is already safe, its waits already followed by barriers, is left as it is. */
  lemma {:induction false} SafeIsStable(ops: seq<Op>, p: Pending, filter: Filter)
    requires Safe(p, Trace(ops), filter) && WaitsSynced(ops)
    ensures Transfer(ops, p, filter) == Scan(ops, After(p, Trace(ops)))
    decreases |ops|
  {
    if ops != [] {
      var op, rest := ops[0], ops[1..];
      SafeConcat(p, Events(op), Trace(rest), filter);
      AfterConcat(p, Events(op), Trace(rest));
      SafeEvents(op, p, filter);
      assert op.AsyncWait? ==> ops[0 + 1].Barrier?;
      var s := StepOp(op, StartsWithBarrier(rest), p, filter);
      assert s.ops == [op];
      assert s.out == After(p, Events(op)) by { StepIsSafe(op, StartsWithBarrier(rest), p, filter); TraceOne(op); }
      assert forall k :: 0 <= k < |rest| ==> rest[k] == ops[k + 1];
      SafeIsStable(rest, s.out, filter);
      assert ops == [op] + rest;
    }
  }

  /** Scanning a scanned block again from the same state changes nothing. */
  lemma TransferIsIdempotent(ops: seq<Op>, p: Pending, filter: Filter)
    ensures Transfer(Transfer(ops, p, filter).ops, p, filter) == Transfer(ops, p, filter)
  {
    TransferIsSafe(ops, p, filter);
    TransferSyncsWaits(ops, p, filter);
    SafeIsStable(Transfer(ops, p, filter).ops, p, filter);
  }

  // ---------------------------------------------------------------- the order on states

  /** One bit of information in a state: an interval has an entry, or an operation is in its entry. */
  datatype Fact = Fact(write: bool, interval: Interval, op: Option<OpId>)

  function SideFacts(m: IntervalMap, write: bool): set<Fact> {
    (set i | i in m :: Fact(write, i, None)) + (set i, o | i in m && o in m[i] :: Fact(write, i, Some(o)))
  }

  function Facts(p: Pending): set<Fact> {
    SideFacts(p.readers, false) + SideFacts(p.writers, true)
  }

  function Side(p: Pending, write: bool): IntervalMap {
    if write then p.writers else p.readers
  }

  predicate Below(p: Pending, q: Pending) {
    Facts(p) <= Facts(q)
  }

  lemma InFacts(p: Pending, f: Fact)
    ensures f in Facts(p) <==>
      match f.op { case None => f.interval in Side(p, f.write) case Some(o) => Has(Side(p, f.write), f.interval, o) }
  {
  }

  lemma FactsJoined(p: Pending, q: Pending)
    ensures Facts(Joined(p, q)) == Facts(p) + Facts(q)
  {
    forall f: Fact
      ensures f in Facts(Joined(p, q)) <==> f in Facts(p) + Facts(q)
    {
      InFacts(p, f);
      InFacts(q, f);
      InFacts(Joined(p, q), f);
    }
  }

  lemma FactsDetermine(p: Pending, q: Pending)
    requires Facts(p) == Facts(q)
    ensures p == q
  {
    forall w, i
      ensures i in Side(p, w) <==> i in Side(q, w)
      ensures i in Side(p, w) ==> Side(p, w)[i] == Side(q, w)[i]
    {
      InFacts(p, Fact(w, i, None));
      InFacts(q, Fact(w, i, None));
      if i in Side(p, w) {
        forall o
          ensures o in Side(p, w)[i] <==> o in Side(q, w)[i]
        {
          InFacts(p, Fact(w, i, Some(o)));
          InFacts(q, Fact(w, i, Some(o)));
        }
      }
    }
    assert Side(p, false) == Side(q, false) && Side(p, true) == Side(q, true);
  }

  /** A conflict is due to one pending access. */
  lemma ConflictHasFact(p: Pending, q: Pending, filter: Filter) returns (f: Fact)
    requires Conflict(p, q, filter)
    ensures f in Facts(p)
    ensures forall p' :: f in Facts(p') ==> Conflict(p', q, filter)
  {
    var lw, rw :| (lw || rw) && Hits(Side(p, lw), Side(q, rw), filter);
    var l, r := Side(p, lw), Side(q, rw);
    assert Hits(l, r, filter);
    var i, a, j, b :| Has(l, i, a) && Has(r, j, b) && i.Intersects(j) && !filter(a, b);
    f := Fact(lw, i, Some(a));
    InFacts(p, f);
    forall p' | f in Facts(p')
      ensures Conflict(p', q, filter)
    {
      InFacts(p', f);
      assert Has(Side(p', lw), i, a) && Hits(Side(p', lw), r, filter);
    }
  }

  ghost function Next(p: Pending, e: Event): Pending {
    if e.Sync? then EMPTY else Joined(p, e.acc)
  }

  ghost function Nexts(qs: iset<Pending>, e: Event): iset<Pending> {
    iset q | q in qs :: Next(q, e)
  }

  ghost function Afters(qs: iset<Pending>, tr: seq<Event>): iset<Pending> {
    iset q | q in qs :: After(q, tr)
  }

  /** Every fact of p holds in some state of qs, and qs has a state. */
  ghost predicate CoveredBy(p: Pending, qs: iset<Pending>) {
    (exists q :: q in qs) && forall f :: f in Facts(p) ==> exists q :: q in qs && f in Facts(q)
  }

  lemma CoveredNext(p: Pending, qs: iset<Pending>, e: Event)
    requires CoveredBy(p, qs)
    ensures CoveredBy(Next(p, e), Nexts(qs, e))
  {
    var q0 :| q0 in qs;
    assert Next(q0, e) in Nexts(qs, e);
    if e.Access? {
      FactsJoined(p, e.acc);
      forall f | f in Facts(Next(p, e))
        ensures exists q :: q in Nexts(qs, e) && f in Facts(q)
      {
        var q := if f in Facts(p) then var q :| q in qs && f in Facts(q); q else q0;
        FactsJoined(q, e.acc);
        assert Next(q, e) in Nexts(qs, e);
      }
    } else {
      assert Facts(EMPTY) == {};
    }
  }

  lemma AftersCons(qs: iset<Pending>, tr: seq<Event>)
    requires tr != []
    ensures Afters(qs, tr) == Afters(Nexts(qs, tr[0]), tr[1..])
  {
    forall q | q in qs
      ensures After(q, tr) in Afters(Nexts(qs, tr[0]), tr[1..])
    {
      assert Next(q, tr[0]) in Nexts(qs, tr[0]);
    }
  }

  /**
   * Merging states loses nothing: a trace that is safe from each of the states in qs is safe from a
   * state made of their facts, and it ends in a state made of the facts they end in.
   */
  lemma {:induction false} MergedStateIsSafe(p: Pending, qs: iset<Pending>, tr: seq<Event>, filter: Filter)
    requires CoveredBy(p, qs)
    requires forall q :: q in qs ==> Safe(q, tr, filter)
    ensures Safe(p, tr, filter)
    ensures CoveredBy(After(p, tr), Afters(qs, tr))
    decreases |tr|
  {
    if tr == [] {
      assert qs == Afters(qs, tr);
    } else {
      var e, rest := tr[0], tr[1..];
      if e.Access? && Conflict(p, e.acc, filter) {
        var f := ConflictHasFact(p, e.acc, filter);
        assert false;
      }
      CoveredNext(p, qs, e);
      MergedStateIsSafe(Next(p, e), Nexts(qs, e), rest, filter);
      AftersCons(qs, tr);
    }
  }

  lemma SafeBelow(p: Pending, q: Pending, tr: seq<Event>, filter: Filter)
    requires Below(p, q) && Safe(q, tr, filter)
    ensures Safe(p, tr, filter) && Below(After(p, tr), After(q, tr))
  {
    assert q in iset{q};
    MergedStateIsSafe(p, iset{q}, tr, filter);
    forall f | f in Facts(After(p, tr))
      ensures f in Facts(After(q, tr))
    {
      var r :| r in Afters(iset{q}, tr) && f in Facts(r);
    }
  }

  // ---------------------------------------------------------------- the barrier budget

  /** The number of places in a block where a scan may still insert a barrier. */
  function Exposed(ops: seq<Op>, afterBarrier: bool): nat {
    if ops == [] then 0
    else match ops[0]
      case Barrier => Exposed(ops[1..], true)
      case AsyncWait => (if StartsWithBarrier(ops[1..]) then 0 else 1) + Exposed(ops[1..], false)
      case Generic(_, _, _, _, _, _) => (if afterBarrier then 0 else 1) + Exposed(ops[1..], false)
  }

  /** What a step puts in place of an operation, leaving the reasons aside. */
  ghost predicate StepShape(op: Op, beforeBarrier: bool, p: Pending, s: Scan) {
    || (s.ops == [op] && (op.AsyncWait? ==> beforeBarrier) && (op.Barrier? ==> s.out == EMPTY))
    || (s.ops == [Barrier, op] && op.Generic? && p != EMPTY)
    || (s.ops == [op, Barrier] && op.AsyncWait? && !beforeBarrier && s.out == EMPTY)
  }

  lemma StepHasShape(op: Op, beforeBarrier: bool, p: Pending, filter: Filter)
    ensures StepShape(op, beforeBarrier, p, StepOp(op, beforeBarrier, p, filter))
  {
  }

  /** Every scan that inserts a barrier uses up part of the block's budget. */
  lemma {:induction false} TransferSpendsBudget(ops: seq<Op>, p: Pending, afterBarrier: bool, filter: Filter)
    requires afterBarrier ==> p == EMPTY
    ensures var r := Transfer(ops, p, filter).ops;
      Exposed(r, afterBarrier) <= Exposed(ops, afterBarrier) - (if r == ops then 0 else 1)
    decreases |ops|
  {
    if ops != [] {
      var op, rest := ops[0], ops[1..];
      var s := StepOp(op, StartsWithBarrier(rest), p, filter);
      StepHasShape(op, StartsWithBarrier(rest), p, filter);
      TransferSyncsWaits(rest, s.out, filter);
      TransferSpendsBudget(rest, s.out, op.Barrier? || s.ops == [op, Barrier], filter);
      StepSpendsBudget(ops, p, s, Transfer(rest, s.out, filter).ops, afterBarrier);
    }
  }

  lemma StepSpendsBudget(ops: seq<Op>, p: Pending, s: Scan, r: seq<Op>, afterBarrier: bool)
    requires ops != [] && StepShape(ops[0], StartsWithBarrier(ops[1..]), p, s)
    requires afterBarrier ==> p == EMPTY
    requires StartsWithBarrier(ops[1..]) ==> StartsWithBarrier(r)
    requires var after := ops[0].Barrier? || s.ops == [ops[0], Barrier];
      Exposed(r, after) <= Exposed(ops[1..], after) - (if r == ops[1..] then 0 else 1)
    ensures Exposed(s.ops + r, afterBarrier) <= Exposed(ops, afterBarrier) - (if s.ops + r == ops then 0 else 1)
  {
  }

  // ---------------------------------------------------------------- what a scan keeps

  /** b is a with barriers inserted. */
  predicate Extends(a: seq<Op>, b: seq<Op>) {
    if b == [] then a == []
    else (a != [] && a[0] == b[0] && Extends(a[1..], b[1..])) || (b[0].Barrier? && Extends(a, b[1..]))
  }

  lemma ExtendsReflexive(a: seq<Op>)
    ensures Extends(a, a)
  {
  }

  lemma {:induction false} ExtendsTransitive(a: seq<Op>, b: seq<Op>, c: seq<Op>)
    requires Extends(a, b) && Extends(b, c)
    ensures Extends(a, c)
    decreases |c|
  {
    if c != [] {
      if c[0].Barrier? && Extends(b, c[1..]) {
        ExtendsTransitive(a, b, c[1..]);
      } else if a != [] && a[0] == b[0] && Extends(a[1..], b[1..]) {
        ExtendsTransitive(a[1..], b[1..], c[1..]);
      } else {
        ExtendsTransitive(a, b[1..], c[1..]);
      }
    }
  }

  lemma {:induction false} TransferExtends(ops: seq<Op>, p: Pending, filter: Filter)
    ensures Extends(ops, Transfer(ops, p, filter).ops)
    decreases |ops|
  {
    hide StepOp, Facts, Joined;
    if ops != [] {
      var s := StepOp(ops[0], StartsWithBarrier(ops[1..]), p, filter);
      var r := Transfer(ops[1..], s.out, filter).ops;
      StepHasShape(ops[0], StartsWithBarrier(ops[1..]), p, filter);
      TransferExtends(ops[1..], s.out, filter);
      assert ([ops[0]] + r)[1..] == r && Extends(ops, [ops[0]] + r);
      if s.ops == [Barrier, ops[0]] {
        assert s.ops + r == [Barrier] + ([ops[0]] + r) && (s.ops + r)[1..] == [ops[0]] + r;
      } else if s.ops == [ops[0], Barrier] {
        assert s.ops + r == [ops[0]] + ([Barrier] + r) && (s.ops + r)[1..] == [Barrier] + r;
        assert ([Barrier] + r)[1..] == r;
      }
    }
  }

  predicate Bounded(ops: seq<Op>, top: Pending) {
    forall k :: 0 <= k < |ops| ==> Below(Footprint(ops[k]), top)
  }

  lemma StepOut(op: Op, beforeBarrier: bool, p: Pending, filter: Filter)
    ensures var s := StepOp(op, beforeBarrier, p, filter);
      && s.out in {EMPTY, p, Joined(p, Footprint(op)), Joined(EMPTY, Footprint(op))}
      && forall o :: o in s.ops ==> o == op || o == Barrier
  {
  }

  lemma JoinsBelow(p: Pending, q: Pending, top: Pending)
    requires Below(p, top) && Below(q, top)
    ensures Below(EMPTY, top) && Below(Joined(p, q), top) && Below(Joined(EMPTY, q), top)
  {
    assert Facts(EMPTY) == {};
    FactsJoined(p, q);
    FactsJoined(EMPTY, q);
  }

  /** A scan keeps the operations, so it keeps well-formedness and the bound on what they can leave pending. */
  lemma {:induction false} TransferKeeps(ops: seq<Op>, p: Pending, top: Pending, filter: Filter)
    requires Below(p, top) && Bounded(ops, top)
    ensures var r := Transfer(ops, p, filter);
      Below(r.out, top) && Bounded(r.ops, top) && (WellFormed(ops) ==> WellFormed(r.ops))
    decreases |ops|
  {
    if ops != [] {
      var op, rest := ops[0], ops[1..];
      var s := StepOp(op, StartsWithBarrier(rest), p, filter);
      StepOut(op, StartsWithBarrier(rest), p, filter);
      assert Below(Footprint(ops[0]), top);
      JoinsBelow(p, Footprint(op), top);
      TransferKeeps(rest, s.out, top, filter);
      KeptConcat(ops, s.ops, Transfer(rest, s.out, filter).ops, top);
    }
  }

  lemma KeptConcat(ops: seq<Op>, a: seq<Op>, b: seq<Op>, top: Pending)
    requires ops != [] && Bounded(ops, top)
    requires forall o :: o in a ==> o == ops[0] || o == Barrier
    requires Bounded(b, top) && (WellFormed(ops[1..]) ==> WellFormed(b))
    ensures Bounded(a + b, top) && (WellFormed(ops) ==> WellFormed(a + b))
  {
    assert Facts(EMPTY) == {} && Footprint(Barrier) == EMPTY && !Malformed(Barrier);
    forall k | 0 <= k < |a|
      ensures Below(Footprint(a[k]), top) && (WellFormed(ops) ==> !Malformed(a[k]))
    {
      assert a[k] in a;
    }
    assert WellFormed(ops) ==> WellFormed(ops[1..]);
  }
}
