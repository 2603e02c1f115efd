/** The worklist that inserts barriers until every path through the control-flow graph is race free. */
module MembarAnalysis {
  import opened Basics
  import opened Membar
  import opened MembarTransfer
  import opened MembarRaces

  // ---------------------------------------------------------------- control flow

  /** Virtual blocks 0 .. |successors|, the entry blocks among them, and where each may branch. */
  datatype Cfg = Cfg(entries: seq<Block>, successors: seq<seq<Block>>) {
    predicate Valid() {
      && (forall e :: e in entries ==> e < |successors|)
      && forall b, s :: 0 <= b < |successors| && s in successors[b] ==> s < |successors|
    }

    predicate IsPath(path: seq<Block>)
      requires Valid()
    {
      && path != [] && path[0] in entries
      && (forall k :: 0 <= k < |path| ==> path[k] < |successors|)
      && forall k :: 0 < k < |path| ==> path[k] in successors[path[k - 1]]
    }
  }

  type Body = seq<seq<Op>>

  /** The events of an execution that runs the blocks of a path in order. */
  function PathTrace(body: Body, path: seq<Block>): seq<Event>
    requires forall k :: 0 <= k < |path| ==> path[k] < |body|
  {
    if path == [] then [] else PathTrace(body, path[..|path| - 1]) + Trace(body[path[|path| - 1]])
  }

  ghost predicate PathsRaceFree(cfg: Cfg, body: Body, filter: Filter)
    requires cfg.Valid() && |body| == |cfg.successors|
  {
    forall path :: cfg.IsPath(path) ==> RaceFree(PathTrace(body, path), filter)
  }

  /** The operations executed along a path. */
  function PathOps(body: Body, path: seq<Block>): seq<Op>
    requires forall k :: 0 <= k < |path| ==> path[k] < |body|
  {
    if path == [] then [] else PathOps(body, path[..|path| - 1]) + body[path[|path| - 1]]
  }

  /** On every path, operations that access common memory and must not race have a synchronisation between them. */
  ghost predicate PathsClashFree(cfg: Cfg, body: Body, filter: Filter)
    requires cfg.Valid() && |body| == |cfg.successors|
  {
    forall path :: cfg.IsPath(path) ==> ClashFree(PathOps(body, path), filter)
  }

  /** No scratch operation that control can reach has explicit accesses. */
  ghost predicate PathsWellFormed(cfg: Cfg, body: Body)
    requires cfg.Valid() && |body| == |cfg.successors|
  {
    forall path :: cfg.IsPath(path) ==> WellFormed(body[path[|path| - 1]])
  }

  ghost predicate Reachable(cfg: Cfg, b: Block)
    requires cfg.Valid()
  {
    exists path :: cfg.IsPath(path) && path[|path| - 1] == b
  }

  lemma ReachOn(cfg: Cfg, b: Block, s: Block)
    requires cfg.Valid() && Reachable(cfg, b) && b < |cfg.successors| && s in cfg.successors[b]
    ensures Reachable(cfg, s)
  {
    var path :| cfg.IsPath(path) && path[|path| - 1] == b;
    var longer := path + [s];
    forall k | 0 < k < |longer|
      ensures longer[k] in cfg.successors[longer[k - 1]]
    {
      assert longer[k - 1] == path[k - 1] && (k < |path| ==> longer[k] == path[k]);
    }
    assert cfg.IsPath(longer);
  }

  lemma EntriesReachable(cfg: Cfg)
    requires cfg.Valid()
    ensures forall e :: e in cfg.entries ==> Reachable(cfg, e)
  {
    forall e | e in cfg.entries
      ensures Reachable(cfg, e)
    {
      assert cfg.IsPath([e]) && [e][|[e]| - 1] == e;
    }
  }

  lemma {:induction false} PathOpsTrace(cfg: Cfg, body: Body, path: seq<Block>)
    requires cfg.Valid() && |body| == |cfg.successors| && (path == [] || cfg.IsPath(path))
    requires PathsWellFormed(cfg, body)
    ensures PathTrace(body, path) == Trace(PathOps(body, path)) && WellFormed(PathOps(body, path))
    decreases |path|
  {
    hide WellFormed, PathsWellFormed;
    if path == [] {
      NothingMalformed();
    } else {
      var init, last := path[..|path| - 1], path[|path| - 1];
      assert init == [] || cfg.IsPath(init);
      PathOpsTrace(cfg, body, init);
      TraceConcat(PathOps(body, init), body[last]);
      assert WellFormed(body[last]) by { WellFormedAt(cfg, body, path); }
      WellFormedConcat(PathOps(body, init), body[last]);
    }
  }

  lemma NothingMalformed()
    ensures WellFormed([]) && Trace([]) == []
  {
  }

  lemma WellFormedAt(cfg: Cfg, body: Body, path: seq<Block>)
    requires cfg.Valid() && |body| == |cfg.successors| && PathsWellFormed(cfg, body) && cfg.IsPath(path)
    ensures WellFormed(body[path[|path| - 1]])
  {
  }

  lemma WellFormedConcat(a: seq<Op>, b: seq<Op>)
    requires WellFormed(a) && WellFormed(b)
    ensures WellFormed(a + b)
  {
    hide Malformed;
  }

  /** Race freedom of the traces is that of the operations. */
  lemma RaceFreePathsAreClashFree(cfg: Cfg, body: Body, filter: Filter)
    requires cfg.Valid() && |body| == |cfg.successors| && PathsWellFormed(cfg, body)
    ensures PathsRaceFree(cfg, body, filter) <==> PathsClashFree(cfg, body, filter)
  {
    hide RaceFree, ClashFree, PathsWellFormed, WellFormed, PathTrace, PathOps;
    forall path | cfg.IsPath(path)
      ensures RaceFree(PathTrace(body, path), filter) <==> ClashFree(PathOps(body, path), filter)
    {
      PathOpsTrace(cfg, body, path);
      RaceFreeIsClashFree(PathOps(body, path), filter);
    }
  }

  lemma ExtendedPathsWellFormed(cfg: Cfg, body: Body, body': Body)
    requires cfg.Valid() && |body| == |body'| == |cfg.successors|
    requires PathsWellFormed(cfg, body) && forall b :: 0 <= b < |body| ==> Extends(body[b], body'[b])
    ensures PathsWellFormed(cfg, body')
  {
    hide WellFormed, Extends;
    forall path | cfg.IsPath(path)
      ensures WellFormed(body'[path[|path| - 1]])
    {
      ExtendsWellFormed(body[path[|path| - 1]], body'[path[|path| - 1]]);
    }
  }

  /** Every asynchronous wait that control can reach is followed by a barrier. */
  ghost predicate PathsSynced(cfg: Cfg, body: Body)
    requires cfg.Valid() && |body| == |cfg.successors|
  {
    forall path :: cfg.IsPath(path) ==> WaitsSynced(body[path[|path| - 1]])
  }

  // ---------------------------------------------------------------- fixed points

  function Lookup(m: map<Block, Pending>, b: Block): Pending {
    if b in m then m[b] else EMPTY
  }

  /** The stored output of a block is what a scan of it from its present input gives, and a scan inserts nothing. */
  ghost predicate Settled(body: Body, inputs: map<Block, Pending>, outputs: map<Block, Pending>, b: Block,
                          filter: Filter)
    requires b < |body| && b in outputs
  {
    Transfer(body[b], Lookup(inputs, b), filter) == Scan(body[b], outputs[b])
  }

  /** What the worklist keeps; once the queue is empty it is a fixed point of the analysis. */
  ghost predicate Consistent(cfg: Cfg, body: Body, inputs: map<Block, Pending>, outputs: map<Block, Pending>,
                             queue: seq<Block>, filter: Filter)
    requires cfg.Valid() && |body| == |cfg.successors|
  {
    && (forall b :: b in queue ==> b < |body|)
    && (forall b :: b in outputs ==> b < |body|)
    && (forall e :: e in cfg.entries ==> e in outputs || e in queue)
    && (forall b, s :: b in outputs && s in cfg.successors[b] ==>
          (s in outputs || s in queue) && Below(outputs[b], Lookup(inputs, s)))
    && (forall b :: b in outputs && b !in queue ==> Settled(body, inputs, outputs, b, filter))
  }

  /** At a fixed point, what a path leaves pending is part of what the analysis computed for its last block. */
  lemma {:induction false} FixedPointCoversPath(cfg: Cfg, body: Body, inputs: map<Block, Pending>,
                                                outputs: map<Block, Pending>, path: seq<Block>, filter: Filter)
    requires cfg.Valid() && |body| == |cfg.successors|
    requires Consistent(cfg, body, inputs, outputs, [], filter)
    requires cfg.IsPath(path)
    ensures var last := path[|path| - 1];
      last in outputs && WaitsSynced(body[last]) && Safe(EMPTY, PathTrace(body, path), filter)
      && Below(After(EMPTY, PathTrace(body, path)), outputs[last])
    decreases |path|
  {
    hide Facts, Below, Transfer, Safe, After, Trace, WaitsSynced;
    var n := |path| - 1;
    var init, last := path[..n], path[n];
    var before := After(EMPTY, PathTrace(body, init));
    assert last in outputs && Safe(EMPTY, PathTrace(body, init), filter) && Below(before, Lookup(inputs, last)) by {
      if n == 0 {
        StartIsSafe(Lookup(inputs, last), filter);
        assert PathTrace(body, init) == [];
      } else {
        assert init[n - 1] == path[n - 1];
        FixedPointCoversPath(cfg, body, inputs, outputs, init, filter);
        assert path[n] in cfg.successors[path[n - 1]];
        BelowTransitive(before, outputs[path[n - 1]], Lookup(inputs, last));
      }
    }
    assert Settled(body, inputs, outputs, last, filter);
    SettledBlock(body[last], before, Lookup(inputs, last), outputs[last], filter);
    SafeConcat(EMPTY, PathTrace(body, init), Trace(body[last]), filter);
    AfterConcat(EMPTY, PathTrace(body, init), Trace(body[last]));
  }

  lemma StartIsSafe(p: Pending, filter: Filter)
    ensures Below(EMPTY, p) && Safe(EMPTY, [], filter) && After(EMPTY, []) == EMPTY
  {
  }

  lemma BelowTransitive(p: Pending, q: Pending, r: Pending)
    requires Below(p, q) && Below(q, r)
    ensures Below(p, r)
  {
  }

  /** A block whose scan changes nothing is safe from any smaller state. */
  lemma SettledBlock(ops: seq<Op>, before: Pending, input: Pending, out: Pending, filter: Filter)
    requires Below(before, input) && Transfer(ops, input, filter) == Scan(ops, out)
    ensures WaitsSynced(ops) && Safe(before, Trace(ops), filter) && Below(After(before, Trace(ops)), out)
  {
    hide Facts, Below, Transfer, Safe, After, Trace, WaitsSynced;
    TransferIsSafe(ops, input, filter);
    TransferSyncsWaits(ops, input, filter);
    SafeBelow(before, input, Trace(ops), filter);
  }

  lemma FixedPointIsRaceFree(cfg: Cfg, body: Body, inputs: map<Block, Pending>, outputs: map<Block, Pending>,
                             filter: Filter)
    requires cfg.Valid() && |body| == |cfg.successors|
    requires Consistent(cfg, body, inputs, outputs, [], filter)
    ensures PathsRaceFree(cfg, body, filter) && PathsSynced(cfg, body)
  {
    forall path | cfg.IsPath(path)
      ensures RaceFree(PathTrace(body, path), filter) && WaitsSynced(body[path[|path| - 1]])
    {
      FixedPointCoversPath(cfg, body, inputs, outputs, path, filter);
      SafeIsRaceFree(EMPTY, PathTrace(body, path), filter);
    }
  }

  // ---------------------------------------------------------------- the termination measure

  function TotalBudget(body: Body): nat {
    if body == [] then 0 else Exposed(body[0], false) + TotalBudget(body[1..])
  }

  lemma {:induction false} BudgetUpdate(body: Body, b: Block, ops: seq<Op>)
    requires b < |body|
    ensures TotalBudget(body[b := ops]) + Exposed(body[b], false) == TotalBudget(body) + Exposed(ops, false)
    decreases |body|
  {
    if b == 0 {
      assert body[b := ops][1..] == body[1..];
    } else {
      assert body[b := ops][1..] == body[1..][b - 1 := ops];
      BudgetUpdate(body[1..], b - 1, ops);
    }
  }

  /** How much the inputs of the first n blocks can still grow below top. */
  ghost function Room(inputs: map<Block, Pending>, top: Pending, n: nat): nat {
    if n == 0 then 0 else RoomAbove(Lookup(inputs, n - 1), top) + Room(inputs, top, n - 1)
  }

  ghost function RoomAbove(p: Pending, top: Pending): nat {
    |Facts(top) - Facts(p)|
  }

  lemma RoomAboveShrinks(p: Pending, q: Pending, top: Pending)
    requires Below(p, q) && Below(q, top)
    ensures RoomAbove(q, top) <= RoomAbove(p, top) - (if p == q then 0 else 1)
  {
    DifferenceShrinks(Facts(p), Facts(q), Facts(top));
    if Facts(p) == Facts(q) {
      FactsDetermine(p, q);
    }
  }

  lemma DifferenceShrinks<T>(p: set<T>, q: set<T>, top: set<T>)
    requires p <= q <= top
    ensures |top - q| <= |top - p| - (if p == q then 0 else 1)
  {
    SubsetSize(top - q, top - p);
    if p != q {
      var x :| x in q && x !in p;
      assert x in top - p && x !in top - q;
    }
  }

  lemma {:induction false} RoomShrinks(inputs: map<Block, Pending>, inputs': map<Block, Pending>, top: Pending, n: nat)
    requires forall b :: 0 <= b < n ==> Below(Lookup(inputs, b), Lookup(inputs', b)) && Below(Lookup(inputs', b), top)
    ensures Room(inputs', top, n) <= Room(inputs, top, n)
    ensures (exists b :: 0 <= b < n && Lookup(inputs, b) != Lookup(inputs', b)) ==>
      Room(inputs', top, n) < Room(inputs, top, n)
  {
    hide Below, Lookup, RoomAbove;
    if n > 0 {
      RoomShrinks(inputs, inputs', top, n - 1);
      RoomAboveShrinks(Lookup(inputs, n - 1), Lookup(inputs', n - 1), top);
    }
  }

  /** The blocks whose stored output is missing or out of date. */
  ghost function Stale(body: Body, inputs: map<Block, Pending>, outputs: map<Block, Pending>,
                       filter: Filter): set<Block> {
    set b | 0 <= b < |body| && !(b in outputs && Settled(body, inputs, outputs, b, filter))
  }

  /** inputs with out joined into the entry of every block of succs. */
  ghost predicate Propagated(inputs: map<Block, Pending>, inputs': map<Block, Pending>, succs: seq<Block>,
                             out: Pending) {
    && inputs'.Keys == inputs.Keys + (set s | s in succs)
    && forall b :: Lookup(inputs', b) == if b in succs then Joined(Lookup(inputs, b), out) else Lookup(inputs, b)
  }

  // ---------------------------------------------------------------- one visit

  /** Rescanning a block and finding its stored output unchanged keeps the worklist consistent. */
  lemma SkipKeepsConsistent(cfg: Cfg, body: Body, inputs: map<Block, Pending>, outputs: map<Block, Pending>,
                            b: Block, rest: seq<Block>, r: Scan, filter: Filter)
    requires cfg.Valid() && |body| == |cfg.successors| && b < |body|
    requires Consistent(cfg, body, inputs, outputs, [b] + rest, filter)
    requires r == Transfer(body[b], Lookup(inputs, b), filter)
    requires b in outputs && outputs[b] == r.out
    ensures Consistent(cfg, body[b := r.ops], inputs, outputs, rest, filter)
  {
    hide Facts, Transfer;
    TransferIsIdempotent(body[b], Lookup(inputs, b), filter);
    assert forall c :: c in [b] + rest <==> c == b || c in rest;
  }

  lemma BelowJoined(p: Pending, q: Pending, top: Pending)
    ensures Below(p, Joined(p, q)) && Below(q, Joined(p, q))
    ensures Below(p, top) && Below(q, top) ==> Below(Joined(p, q), top)
  {
    FactsJoined(p, q);
  }

  /** Storing a new output and pushing it to the successors keeps the worklist consistent. */
  lemma PushKeepsConsistent(cfg: Cfg, body: Body, inputs: map<Block, Pending>, inputs': map<Block, Pending>,
                            outputs: map<Block, Pending>, b: Block, rest: seq<Block>, r: Scan, filter: Filter)
    requires cfg.Valid() && |body| == |cfg.successors| && b < |body|
    requires Consistent(cfg, body, inputs, outputs, [b] + rest, filter)
    requires r == Transfer(body[b], Lookup(inputs, b), filter)
    requires Propagated(inputs, inputs', cfg.successors[b], r.out)
    ensures Consistent(cfg, body[b := r.ops], inputs', outputs[b := r.out], rest + cfg.successors[b], filter)
  {
    hide Facts, Transfer, Joined;
    TransferIsIdempotent(body[b], Lookup(inputs, b), filter);
    assert forall c :: c in [b] + rest <==> c == b || c in rest;
    forall c
      ensures c in cfg.successors[b] ==> Below(r.out, Lookup(inputs', c))
      ensures Below(Lookup(inputs, c), Lookup(inputs', c))
    {
      BelowJoined(Lookup(inputs, c), r.out, EMPTY);
    }
  }

  /** A visit that inserts nothing and stores a new output either enlarges an input or leaves fewer blocks stale. */
  lemma PushDecreases(cfg: Cfg, body: Body, inputs: map<Block, Pending>, inputs': map<Block, Pending>,
                      outputs: map<Block, Pending>, b: Block, r: Scan, top: Pending, filter: Filter)
    requires cfg.Valid() && |body| == |cfg.successors| && b < |body|
    requires r == Transfer(body[b], Lookup(inputs, b), filter) && r.ops == body[b]
    requires Propagated(inputs, inputs', cfg.successors[b], r.out)
    requires Below(r.out, top) && !(b in outputs && outputs[b] == r.out)
    requires forall c :: Below(Lookup(inputs, c), top)
    ensures Room(inputs', top, |body|) <= Room(inputs, top, |body|)
    ensures Room(inputs', top, |body|) < Room(inputs, top, |body|) ||
      |Stale(body, inputs', outputs[b := r.out], filter)| < |Stale(body, inputs, outputs, filter)|
    ensures forall c :: Below(Lookup(inputs', c), top)
  {
    hide Facts, Transfer, Joined;
    forall c
      ensures Below(Lookup(inputs, c), Lookup(inputs', c)) && Below(Lookup(inputs', c), top)
    {
      BelowJoined(Lookup(inputs, c), r.out, top);
    }
    RoomShrinks(inputs, inputs', top, |body|);
    if forall c :: 0 <= c < |body| ==> Lookup(inputs, c) == Lookup(inputs', c) {
      var s, s' := Stale(body, inputs, outputs, filter), Stale(body, inputs', outputs[b := r.out], filter);
      assert b in s && b !in s';
      assert s' <= s;
      SubsetSize(s', s);
    }
  }

  // ---------------------------------------------------------------- nothing is inserted without need

  /** What paths leave pending when they reach b. */
  ghost function Reaching(cfg: Cfg, body: Body, b: Block): iset<Pending>
    requires cfg.Valid() && |body| == |cfg.successors|
  {
    iset pre | cfg.IsPath(pre + [b]) :: After(EMPTY, PathTrace(body, Prefix(cfg, pre, b)))
  }

  /** The path pre, known to lie inside the graph because pre + [b] does. */
  ghost function Prefix(cfg: Cfg, pre: seq<Block>, b: Block): (r: seq<Block>)
    requires cfg.Valid() && cfg.IsPath(pre + [b])
    ensures r == pre && forall k :: 0 <= k < |r| ==> r[k] < |cfg.successors|
  {
    assert forall k :: 0 <= k < |pre| ==> pre[k] == (pre + [b])[k];
    pre
  }

  /** Every pending access the analysis assumes at b is pending on some path to b. */
  ghost predicate Justified(cfg: Cfg, body: Body, inputs: map<Block, Pending>, b: Block)
    requires cfg.Valid() && |body| == |cfg.successors|
  {
    CoveredBy(Lookup(inputs, b), Reaching(cfg, body, b))
  }

  lemma PathVisit(cfg: Cfg, body: Body, pre: seq<Block>, b: Block, filter: Filter)
    requires cfg.Valid() && |body| == |cfg.successors| && cfg.IsPath(pre + [b])
    requires PathsRaceFree(cfg, body, filter) && PathsSynced(cfg, body)
    ensures var q := After(EMPTY, PathTrace(body, Prefix(cfg, pre, b)));
      && WaitsSynced(body[b])
      && Safe(q, Trace(body[b]), filter)
      && forall s :: s in cfg.successors[b] ==> After(q, Trace(body[b])) in Reaching(cfg, body, s)
  {
    hide Facts, Transfer, Joined, RaceFree, Safe, After, Trace, WaitsSynced;
    var path := pre + [b];
    assert Prefix(cfg, pre, b) == pre;
    assert path[..|path| - 1] == pre && path[|path| - 1] == b;
    assert PathTrace(body, path) == PathTrace(body, pre) + Trace(body[b]);
    SafeIsRaceFree(EMPTY, PathTrace(body, path), filter);
    assert Unhurt(EMPTY, PathTrace(body, path), filter);
    SafeConcat(EMPTY, PathTrace(body, pre), Trace(body[b]), filter);
    AfterConcat(EMPTY, PathTrace(body, pre), Trace(body[b]));
    forall s | s in cfg.successors[b]
      ensures After(EMPTY, PathTrace(body, path)) in Reaching(cfg, body, s)
    {
      var longer := path + [s];
      forall k | 0 < k < |longer|
        ensures longer[k] in cfg.successors[longer[k - 1]]
      {
        assert longer[k - 1] == path[k - 1] && (k < |path| ==> longer[k] == path[k]);
      }
      assert cfg.IsPath(path + [s]);
      assert Prefix(cfg, path, s) == path;
    }
  }

  lemma JustifiedVisit(cfg: Cfg, body: Body, inputs: map<Block, Pending>, b: Block, filter: Filter)
    requires cfg.Valid() && |body| == |cfg.successors| && b < |body|
    requires PathsRaceFree(cfg, body, filter) && PathsSynced(cfg, body)
    requires Justified(cfg, body, inputs, b)
    ensures var r := Transfer(body[b], Lookup(inputs, b), filter);
      && r.ops == body[b]
      && forall s :: s in cfg.successors[b] ==> CoveredBy(r.out, Reaching(cfg, body, s))
  {
    hide Facts, Transfer, Joined, RaceFree, Safe, After, Trace, WaitsSynced, PathsRaceFree, PathsSynced;
    var qs, tr := Reaching(cfg, body, b), Trace(body[b]);
    forall q | q in qs
      ensures Safe(q, tr, filter) && WaitsSynced(body[b])
      ensures forall s :: s in cfg.successors[b] ==> After(q, tr) in Reaching(cfg, body, s)
    {
      var pre :| cfg.IsPath(pre + [b]) && q == After(EMPTY, PathTrace(body, Prefix(cfg, pre, b)));
      PathVisit(cfg, body, pre, b, filter);
    }
    MergedStateIsSafe(Lookup(inputs, b), qs, tr, filter);
    SafeIsStable(body[b], Lookup(inputs, b), filter);
  }

  lemma JustifiedJoin(p: Pending, q: Pending, s: iset<Pending>)
    requires (p == EMPTY || CoveredBy(p, s)) && CoveredBy(q, s)
    ensures CoveredBy(Joined(p, q), s)
  {
    hide Joined, Facts;
    FactsJoined(p, q);
    NoFacts();
    forall f | f in Facts(p) + Facts(q)
      ensures exists r :: r in s && f in Facts(r)
    {
    }
  }

  lemma NoFacts()
    ensures Facts(EMPTY) == {}
  {
  }

  // ---------------------------------------------------------------- bounding what can be pending

  function Footprints(ops: seq<Op>): Pending {
    if ops == [] then EMPTY else Joined(Footprint(ops[0]), Footprints(ops[1..]))
  }

  function AllFootprints(body: Body): Pending {
    if body == [] then EMPTY else Joined(Footprints(body[0]), AllFootprints(body[1..]))
  }

  lemma {:induction false} FootprintsBound(ops: seq<Op>, top: Pending)
    requires Below(Footprints(ops), top)
    ensures Bounded(ops, top)
    decreases |ops|
  {
    hide Facts, Joined, Footprint;
    if ops != [] {
      FactsJoined(Footprint(ops[0]), Footprints(ops[1..]));
      FootprintsBound(ops[1..], top);
      assert forall k :: 0 < k < |ops| ==> ops[k] == ops[1..][k - 1];
    }
  }

  lemma {:induction false} AllFootprintsBound(body: Body, top: Pending)
    requires Below(AllFootprints(body), top)
    ensures forall b :: 0 <= b < |body| ==> Bounded(body[b], top)
    decreases |body|
  {
    hide Facts, Joined, Bounded;
    if body != [] {
      FactsJoined(Footprints(body[0]), AllFootprints(body[1..]));
      FootprintsBound(body[0], top);
      AllFootprintsBound(body[1..], top);
      assert forall b :: 0 < b < |body| ==> body[b] == body[1..][b - 1];
    }
  }

  // ---------------------------------------------------------------- the analysis

  function NonBarriers(ops: seq<Op>): nat {
    if ops == [] then 0 else (if ops[0].Barrier? then 0 else 1) + NonBarriers(ops[1..])
  }

  /** One function under analysis: its graph is fixed, barriers are inserted into its blocks. */
  class MembarAnalysis {
    const cfg: Cfg
    const filter: Filter
    var body: Body

    ghost predicate Valid()
      reads this
    {
      cfg.Valid() && |body| == |cfg.successors|
    }

    constructor (cfg: Cfg, body: Body, filter: Filter)
      requires cfg.Valid() && |body| == |cfg.successors|
      ensures Valid() && this.cfg == cfg && this.body == body && this.filter == filter
    {
      this.cfg, this.body, this.filter := cfg, body, filter;
    }

    method InsertBarrier(b: Block, k: nat)
      requires b < |body| && k <= |body[b]|
      modifies this`body
      ensures body == old(body)[b := old(body[b])[..k] + [Barrier] + old(body[b])[k..]]
    {
      body := body[b := body[b][..k] + [Barrier] + body[b][k..]];
    }

    /** Processes the operation at index k of block b; the scan continues at index next. */
    method Update(b: Block, k: nat, blockInfo: BlockInfo) returns (next: nat, ok: bool)
      requires b < |body| && k < |body[b]|
      modifies this`body, blockInfo
      ensures ok <==> !Malformed(old(body[b][k]))
      ensures ok ==>
        var ops := old(body[b]);
        var s := StepOp(ops[k], StartsWithBarrier(ops[k + 1..]), old(blockInfo.Value()), filter);
        && body == old(body)[b := ops[..k] + s.ops + ops[k + 1..]]
        && blockInfo.Value() == s.out
        && next == k + (if s.ops == [Barrier, ops[k]] then 2 else 1)
    {
      hide Facts, Below, Joined, Transfer, WellFormed, Explicit, JoinMap;
      var ops, op := body[b], body[b][k];
      next, ok := k + 1, true;
      assert ops == ops[..k] + [op] + ops[k + 1..];
      if op.Barrier? {
        blockInfo.Sync();
        return;
      }
      if op.AsyncWait? && !(k + 1 < |body[b]| && body[b][k + 1].Barrier?) {
        InsertBarrier(b, k + 1);
        assert body[b] == ops[..k] + [op, Barrier] + ops[k + 1..];
        blockInfo.Sync();
        return;
      }
      if op.AsyncWait? {
        return;
      }
      var cur := new BlockInfo(Explicit(op));
      ExplicitEmpty(op);
      if op.scratch.Some? {
        if cur.syncReadIntervals != map[] || cur.syncWriteIntervals != map[] {
          return next, false;
        }
        cur.syncWriteIntervals := map[op.scratch.value := {op.id}];
        var insertCTABarrier := blockInfo.IsIntersected(ScratchWrite(op), filter);
        if insertCTABarrier {
          InsertBarrier(b, k);
          next := k + 2;
          assert body[b] == ops[..k] + [Barrier, op] + ops[k + 1..];
        }
        if insertCTABarrier || !op.warpSync {
          blockInfo.Sync();
        }
        cur.syncReadIntervals := map[op.scratch.value := {op.id}];
      } else {
        var hit := blockInfo.IsIntersected(Explicit(op), filter);
        if hit {
          InsertBarrier(b, k);
          next := k + 2;
          assert body[b] == ops[..k] + [Barrier, op] + ops[k + 1..];
          blockInfo.Sync();
        }
      }
      blockInfo.Join(Pending(cur.syncReadIntervals, cur.syncWriteIntervals));
    }

    /** Scans block b from the given input state, inserting barriers as it goes. */
    method VisitBlock(b: Block, input: Pending) returns (out: Pending, ok: bool)
      requires b < |body|
      modifies this`body
      ensures ok <==> WellFormed(old(body[b]))
      ensures ok ==> var r := Transfer(old(body[b]), input, filter);
        body == old(body)[b := r.ops] && out == r.out
    {
      hide Facts, Joined, StepOp, Malformed;
      var blockInfo := new BlockInfo(input);
      var k: nat := 0;
      ok := true;
      ghost var r := Transfer(body[b], input, filter);
      assert body[b][..0] == [] && body[b][0..] == body[b] && [] + r.ops == r.ops;
      while k < |body[b]|
        invariant |body| == |old(body)| && k <= |body[b]| && body == old(body)[b := body[b]]
        invariant WellFormed(old(body[b])) <==> WellFormed(body[b][k..])
        invariant var rest := Transfer(body[b][k..], blockInfo.Value(), filter);
          r.ops == body[b][..k] + rest.ops && r.out == rest.out
        decreases NonBarriers(body[b][k..]), |body[b]| - k
      {
        ghost var ops, p := body[b], blockInfo.Value();
        var next;
        next, ok := Update(b, k, blockInfo);
        if !ok {
          MalformedInside(ops, k);
          return input, false;
        }
        ghost var s := StepOp(ops[k], StartsWithBarrier(ops[k + 1..]), p, filter);
        StepAdvances(ops, k, p, s, body[b], next, filter);
        k := next;
      }
      out := Pending(blockInfo.syncReadIntervals, blockInfo.syncWriteIntervals);
      NothingMalformed();
      assert body[b][k..] == [] && body[b][..k] == body[b];
      assert Transfer([], out, filter) == Scan([], out);
      assert r.ops == body[b] + [] == body[b];
    }

    /** Inserts barriers until the dataflow reaches a fixed point; fails only on a malformed scratch operation. */
    method Resolve() returns (ok: bool)
      requires Valid()
      modifies this`body
      ensures ok <==> PathsWellFormed(cfg, old(body))
      ensures ok ==> Valid()
      ensures ok ==> forall b :: 0 <= b < |body| ==> Extends(old(body)[b], body[b])
      ensures ok ==> PathsRaceFree(cfg, body, filter) && PathsClashFree(cfg, body, filter) && PathsSynced(cfg, body)
      ensures ok ==> (body == old(body) <==>
        PathsClashFree(cfg, old(body), filter) && PathsSynced(cfg, old(body)))
    {
      hide Facts, Below, Lookup, Transfer, Joined, Extends, WellFormed, Bounded, PathsRaceFree, PathsSynced,
        Consistent, Justified, TotalBudget, Room, Stale, PathsClashFree, PathsWellFormed, Reachable,
        Exposed, Settled, CoveredBy, AllFootprints, Footprints, Malformed, StepOp, PathTrace, PathOps, After, Trace;
      var inputs: map<Block, Pending> := map[];
      var outputs: map<Block, Pending> := map[];
      var queue: seq<Block> := cfg.entries;
      ghost var top := AllFootprints(body);
      ghost var clean := PathsRaceFree(cfg, body, filter) && PathsSynced(cfg, body);
      InitialState(cfg, body, top, filter);
      EntriesReachable(cfg);
      while queue != []
        invariant Valid()
        invariant Consistent(cfg, body, inputs, outputs, queue, filter)
        invariant forall b :: 0 <= b < |body| ==> Extends(old(body)[b], body[b]) && Bounded(body[b], top)
        invariant forall b :: b in queue ==> Reachable(cfg, b)
        invariant forall b :: b in outputs ==> b < |body| && WellFormed(old(body)[b])
        invariant forall b :: Below(Lookup(inputs, b), top)
        invariant clean ==> body == old(body)
        invariant clean ==> forall b :: b in inputs || b in queue ==> Justified(cfg, body, inputs, b)
        decreases TotalBudget(body), Room(inputs, top, |body|), |Stale(body, inputs, outputs, filter)|, |queue|
      {
        ghost var body0, queue0 := body, queue;
        var block := queue[0];
        queue := queue[1..];
        assert queue0 == [block] + queue && block in queue0;
        assert block < |body| by { ConsistentBlocks(cfg, body, inputs, outputs, queue0, filter); }
        var output;
        output, ok := VisitBlock(block, Lookup(inputs, block));
        ExtendsWellFormed(old(body)[block], body0[block]);
        if !ok {
          ReachesMalformed(cfg, old(body), block);
          return;
        }
        ghost var r := Transfer(body0[block], Lookup(inputs, block), filter);
        VisitKeeps(body0[block], Lookup(inputs, block), top, old(body)[block], filter);
        BudgetUpdate(body0, block, r.ops);
        assert r.ops == body0[block] ==> body == body0;
        if clean {
          JustifiedVisit(cfg, body0, inputs, block, filter);
        }
        if block in outputs && output == outputs[block] {
          SkipKeepsConsistent(cfg, body0, inputs, outputs, block, queue, r, filter);
          continue;
        }
        ghost var outputs0, inputs0 := outputs, inputs;
        outputs := outputs[block := output];
        var successors := cfg.successors[block];
        inputs, queue := PushSuccessors(inputs, queue, successors, output);
        SuccessorsReachable(cfg, block);
        PushKeepsConsistent(cfg, body0, inputs0, inputs, outputs0, block, queue0[1..], r, filter);
        PropagatedBelow(inputs0, inputs, successors, r.out, top);
        if r.ops == body0[block] {
          PushDecreases(cfg, body0, inputs0, inputs, outputs0, block, r, top, filter);
        }
        if clean {
          PushKeepsJustified(cfg, body, inputs0, inputs, successors, r.out);
        }
      }
      Resolved(cfg, body, old(body), inputs, outputs, filter);
      ok := true;
    }
  }

  lemma ReachesMalformed(cfg: Cfg, body: Body, b: Block)
    requires cfg.Valid() && |body| == |cfg.successors| && b < |body| && Reachable(cfg, b) && !WellFormed(body[b])
    ensures !PathsWellFormed(cfg, body)
  {
    hide WellFormed;
  }

  lemma SuccessorsReachable(cfg: Cfg, b: Block)
    requires cfg.Valid() && b < |cfg.successors| && Reachable(cfg, b)
    ensures forall s :: s in cfg.successors[b] ==> Reachable(cfg, s)
  {
    hide Reachable;
    forall s | s in cfg.successors[b]
      ensures Reachable(cfg, s)
    {
      ReachOn(cfg, b, s);
    }
  }

  /** What an empty worklist means for the function and for the one it was made from. */
  lemma Resolved(cfg: Cfg, body: Body, before: Body, inputs: map<Block, Pending>,
                 outputs: map<Block, Pending>, filter: Filter)
    requires cfg.Valid() && |body| == |before| == |cfg.successors|
    requires Consistent(cfg, body, inputs, outputs, [], filter)
    requires forall b :: b in outputs ==> b < |body| && WellFormed(before[b])
    requires forall b :: 0 <= b < |body| ==> Extends(before[b], body[b])
    ensures PathsWellFormed(cfg, before)
    ensures PathsRaceFree(cfg, body, filter) && PathsClashFree(cfg, body, filter) && PathsSynced(cfg, body)
    ensures PathsRaceFree(cfg, before, filter) <==> PathsClashFree(cfg, before, filter)
  {
    hide *;
    FixedPointIsRaceFree(cfg, body, inputs, outputs, filter);
    FixedPointVisitsPaths(cfg, body, before, inputs, outputs, filter);
    ExtendedPathsWellFormed(cfg, before, body);
    RaceFreePathsAreClashFree(cfg, before, filter);
    RaceFreePathsAreClashFree(cfg, body, filter);
  }

  /** Every block on a path has been visited. */
  lemma FixedPointVisitsPaths(cfg: Cfg, body: Body, before: Body, inputs: map<Block, Pending>,
                              outputs: map<Block, Pending>, filter: Filter)
    requires cfg.Valid() && |body| == |before| == |cfg.successors|
    requires Consistent(cfg, body, inputs, outputs, [], filter)
    requires forall b :: b in outputs ==> b < |body| && WellFormed(before[b])
    ensures PathsWellFormed(cfg, before)
  {
    hide WellFormed, Consistent, Safe, After, Below, WaitsSynced, PathTrace;
    forall path | cfg.IsPath(path)
      ensures WellFormed(before[path[|path| - 1]])
    {
      FixedPointCoversPath(cfg, body, inputs, outputs, path, filter);
    }
  }

  lemma TransferCons(op: Op, rest: seq<Op>, p: Pending, filter: Filter)
    ensures var s := StepOp(op, StartsWithBarrier(rest), p, filter);
      var r := Transfer(rest, s.out, filter);
      Transfer([op] + rest, p, filter) == Scan(s.ops + r.ops, r.out)
    ensures op.Barrier? ==>
      var r := Transfer(rest, EMPTY, filter);
      Transfer([op] + rest, p, filter) == Scan([Barrier] + r.ops, r.out)
    ensures NonBarriers([op] + rest) == (if op.Barrier? then 0 else 1) + NonBarriers(rest)
    ensures WellFormed([op] + rest) <==> !Malformed(op) && WellFormed(rest)
    ensures op.Barrier? ==> !Malformed(op)
  {
  }

  lemma MalformedInside(ops: seq<Op>, k: nat)
    requires k < |ops| && Malformed(ops[k])
    ensures !WellFormed(ops[k..])
  {
    hide Malformed;
    assert ops[k..][0] == ops[k];
  }

  /** Continuing a scan after one update is the scan of what is left. */
  lemma StepAdvances(ops: seq<Op>, k: nat, p: Pending, s: Scan, ops': seq<Op>, next: nat, filter: Filter)
    requires k < |ops| && s == StepOp(ops[k], StartsWithBarrier(ops[k + 1..]), p, filter)
    requires ops' == ops[..k] + s.ops + ops[k + 1..]
    requires next == k + (if s.ops == [Barrier, ops[k]] then 2 else 1) && !Malformed(ops[k])
    ensures next <= |ops'|
    ensures var here, there := Transfer(ops[k..], p, filter), Transfer(ops'[next..], s.out, filter);
      ops[..k] + here.ops == ops'[..next] + there.ops && here.out == there.out
    ensures WellFormed(ops[k..]) <==> WellFormed(ops'[next..])
    ensures NonBarriers(ops'[next..]) < NonBarriers(ops[k..]) ||
      (NonBarriers(ops'[next..]) == NonBarriers(ops[k..]) && |ops'| - next < |ops| - k)
  {
    hide Facts, Joined, StepOp, Malformed, Transfer, NonBarriers, WellFormed;
    var op, rest := ops[k], ops[k + 1..];
    StepHasShape(op, StartsWithBarrier(rest), p, filter);
    assert ops[k..] == [op] + rest;
    TransferCons(op, rest, p, filter);
    if s.ops == [op, Barrier] {
      var tail := [Barrier] + rest;
      assert ops'[next..] == tail && ops'[..next] == ops[..k] + [op];
      TransferCons(Barrier, rest, s.out, filter);
    } else {
      assert ops'[next..] == rest && ops'[..next] == ops[..k] + s.ops;
    }
  }

  /** Joins a block's output into the input of each successor and queues the successors. */
  method PushSuccessors(inputs0: map<Block, Pending>, queue0: seq<Block>, successors: seq<Block>, out: Pending)
    returns (inputs: map<Block, Pending>, queue: seq<Block>)
    ensures Propagated(inputs0, inputs, successors, out) && queue == queue0 + successors
  {
    hide Joined;
    inputs, queue := inputs0, queue0;
    for i := 0 to |successors|
      invariant Propagated(inputs0, inputs, successors[..i], out)
      invariant queue == queue0 + successors[..i]
    {
      var s := successors[i];
      var info := new BlockInfo(Lookup(inputs, s));
      info.Join(out);
      PropagateOne(inputs0, inputs, successors[..i], s, out);
      inputs := inputs[s := Pending(info.syncReadIntervals, info.syncWriteIntervals)];
      queue := queue + [s];
      assert successors[..i + 1] == successors[..i] + [s];
    }
    assert successors[..|successors|] == successors;
  }

  lemma PropagateOne(start: map<Block, Pending>, inputs: map<Block, Pending>, succs: seq<Block>, s: Block, out: Pending)
    requires Propagated(start, inputs, succs, out)
    ensures Propagated(start, inputs[s := Joined(Lookup(inputs, s), out)], succs + [s], out)
  {
    hide Joined;
    JoinTwice(Lookup(start, s), out);
  }

  lemma JoinTwice(p: Pending, q: Pending)
    ensures Joined(Joined(p, q), q) == Joined(p, q)
  {
    FactsJoined(p, q);
    FactsJoined(Joined(p, q), q);
    FactsDetermine(Joined(Joined(p, q), q), Joined(p, q));
  }

  lemma InitialState(cfg: Cfg, body: Body, top: Pending, filter: Filter)
    requires cfg.Valid() && |body| == |cfg.successors| && top == AllFootprints(body)
    ensures Consistent(cfg, body, map[], map[], cfg.entries, filter)
    ensures forall b :: 0 <= b < |body| ==> Extends(body[b], body[b]) && Bounded(body[b], top)
    ensures forall b :: Below(Lookup(map[], b), top)
    ensures forall b :: b in cfg.entries ==> Justified(cfg, body, map[], b)
  {
    hide Bounded, Transfer, Joined, Facts, AllFootprints, Extends;
    NothingPending(top);
    AllFootprintsBound(body, top);
    forall b | 0 <= b < |body|
      ensures Extends(body[b], body[b])
    {
      ExtendsReflexive(body[b]);
    }
    forall b | b in cfg.entries
      ensures Justified(cfg, body, map[], b)
    {
      EntryJustified(cfg, body, b);
    }
  }

  lemma EntryJustified(cfg: Cfg, body: Body, b: Block)
    requires cfg.Valid() && |body| == |cfg.successors| && b in cfg.entries
    ensures Justified(cfg, body, map[], b)
  {
    hide Facts, PathTrace;
    NothingPending(EMPTY);
    assert cfg.IsPath([] + [b]);
    assert After(EMPTY, PathTrace(body, Prefix(cfg, [], b))) in Reaching(cfg, body, b);
  }

  lemma NothingPending(top: Pending)
    ensures Facts(EMPTY) == {} && Below(EMPTY, top)
  {
  }

  lemma ConsistentBlocks(cfg: Cfg, body: Body, inputs: map<Block, Pending>, outputs: map<Block, Pending>,
                         queue: seq<Block>, filter: Filter)
    requires cfg.Valid() && |body| == |cfg.successors|
    requires Consistent(cfg, body, inputs, outputs, queue, filter)
    ensures forall b :: b in queue ==> b < |body|
  {
  }

  lemma VisitKeeps(ops: seq<Op>, p: Pending, top: Pending, original: seq<Op>, filter: Filter)
    requires Below(p, top) && Bounded(ops, top) && Extends(original, ops)
    ensures var r := Transfer(ops, p, filter);
      && Below(r.out, top) && Bounded(r.ops, top) && Extends(original, r.ops)
      && (WellFormed(ops) ==> WellFormed(r.ops))
      && Exposed(r.ops, false) <= Exposed(ops, false) - (if r.ops == ops then 0 else 1)
  {
    TransferKeeps(ops, p, top, filter);
    TransferExtends(ops, p, filter);
    ExtendsTransitive(original, ops, Transfer(ops, p, filter).ops);
    TransferSpendsBudget(ops, p, false, filter);
  }

  lemma PropagatedBelow(inputs: map<Block, Pending>, inputs': map<Block, Pending>, succs: seq<Block>, out: Pending,
                        top: Pending)
    requires Propagated(inputs, inputs', succs, out) && Below(out, top)
    requires forall b :: Below(Lookup(inputs, b), top)
    ensures forall b :: Below(Lookup(inputs', b), top)
  {
    hide Facts, Joined;
    forall b
      ensures Below(Lookup(inputs', b), top)
    {
      BelowJoined(Lookup(inputs, b), out, top);
    }
  }

  lemma PushKeepsJustified(cfg: Cfg, body: Body, inputs: map<Block, Pending>, inputs': map<Block, Pending>,
                           succs: seq<Block>, out: Pending)
    requires cfg.Valid() && |body| == |cfg.successors|
    requires Propagated(inputs, inputs', succs, out)
    requires forall b :: b in inputs ==> Justified(cfg, body, inputs, b)
    requires forall s :: s in succs ==> CoveredBy(out, Reaching(cfg, body, s))
    ensures forall b :: b in inputs' ==> Justified(cfg, body, inputs', b)
    ensures forall b :: b !in succs && Justified(cfg, body, inputs, b) ==> Justified(cfg, body, inputs', b)
  {
    hide CoveredBy, Facts, Joined, Reaching;
    forall b | b in inputs'
      ensures Justified(cfg, body, inputs', b)
    {
      if b in succs {
        JustifiedJoin(Lookup(inputs, b), out, Reaching(cfg, body, b));
      }
    }
  }
}
