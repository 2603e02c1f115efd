/** The interpreter's atomic operations on one memory cell: compare-and-swap loops, any number of concurrent calls. */
module InterpreterAtomics {
  import opened Basics

  /** Min and Max loop while the cell compares the wrong way; Add loops until it succeeds; the others are one step. */
  datatype Request<V> =
    | Min(val: V)
    | Max(val: V)
    | Add(val: V)
    | Exchange(val: V)
    | CompareExchange(expected: V, val: V)

  /** The comparison and the addition of the cell's type, which may be any functions. */
  datatype Arith<!V> = Arith(less: (V, V) -> bool, plus: (V, V) -> V)

  /** A call has not started, has a value of the cell in hand, or has returned a value. */
  datatype Pc<V> = Idle | Loaded(held: V) | Done(ret: V)

  datatype State<V> = State(cell: V, pcs: seq<Pc<V>>)

  predicate Loops<V>(r: Request<V>) {
    r.Min? || r.Max? || r.Add?
  }

  /** Whether the loop goes on to try a store when it has `held` in hand. */
  predicate Wants<V>(ar: Arith<V>, r: Request<V>, held: V) {
    match r
    case Min(val) => ar.less(val, held)
    case Max(val) => ar.less(held, val)
    case _ => true
  }

  /** What an atomic execution of the request on a cell holding `held` leaves there. */
  function After<V(==)>(ar: Arith<V>, r: Request<V>, held: V): V {
    match r
    case Min(val) => if ar.less(val, held) then val else held
    case Max(val) => if ar.less(held, val) then val else held
    case Add(val) => ar.plus(held, val)
    case Exchange(val) => val
    case CompareExchange(expected, val) => if held == expected then val else held
  }

  // ---------------------------------------------------------------- the steps of a call

  /** The first load of a loop. */
  ghost predicate Load<V>(reqs: seq<Request<V>>, s: State<V>, s': State<V>, t: nat)
    requires t < |reqs| == |s.pcs|
  {
    Loops(reqs[t]) && s.pcs[t].Idle? && s' == State(s.cell, s.pcs[t := Loaded(s.cell)])
  }

  /** The loop's condition is false: the call returns what it holds. */
  ghost predicate Return<V>(ar: Arith<V>, reqs: seq<Request<V>>, s: State<V>, s': State<V>, t: nat)
    requires t < |reqs| == |s.pcs|
  {
    s.pcs[t].Loaded? && !Wants(ar, reqs[t], s.pcs[t].held) && s' == State(s.cell, s.pcs[t := Done(s.pcs[t].held)])
  }

  ghost predicate CasSucceeds<V>(ar: Arith<V>, reqs: seq<Request<V>>, s: State<V>, s': State<V>, t: nat)
    requires t < |reqs| == |s.pcs|
  {
    && s.pcs[t].Loaded? && Wants(ar, reqs[t], s.pcs[t].held) && s.cell == s.pcs[t].held
    && s' == State(After(ar, reqs[t], s.cell), s.pcs[t := Done(s.cell)])
  }

  /** A weak compare-and-swap may fail although the cell holds the expected value; either way it reloads. */
  ghost predicate CasFails<V>(ar: Arith<V>, reqs: seq<Request<V>>, s: State<V>, s': State<V>, t: nat, spurious: bool)
    requires t < |reqs| == |s.pcs|
  {
    && s.pcs[t].Loaded? && Wants(ar, reqs[t], s.pcs[t].held) && spurious == (s.cell == s.pcs[t].held)
    && s' == State(s.cell, s.pcs[t := Loaded(s.cell)])
  }

  /** Exchange and the strong compare-exchange take one step. */
  ghost predicate AtOnce<V>(ar: Arith<V>, reqs: seq<Request<V>>, s: State<V>, s': State<V>, t: nat)
    requires t < |reqs| == |s.pcs|
  {
    !Loops(reqs[t]) && s.pcs[t].Idle? && s' == State(After(ar, reqs[t], s.cell), s.pcs[t := Done(s.cell)])
  }

  ghost predicate StepOf<V>(ar: Arith<V>, reqs: seq<Request<V>>, s: State<V>, s': State<V>, t: nat, spurious: bool)
    requires t < |reqs| == |s.pcs|
  {
    if spurious then CasFails(ar, reqs, s, s', t, true)
    else
      || Load(reqs, s, s', t) || Return(ar, reqs, s, s', t) || CasSucceeds(ar, reqs, s, s', t)
      || CasFails(ar, reqs, s, s', t, false) || AtOnce(ar, reqs, s, s', t)
  }

  ghost predicate Step<V>(ar: Arith<V>, reqs: seq<Request<V>>, s: State<V>, s': State<V>) {
    |reqs| == |s.pcs| && exists t: nat, spurious :: t < |reqs| && StepOf(ar, reqs, s, s', t, spurious)
  }

  ghost predicate IsRun<V>(ar: Arith<V>, reqs: seq<Request<V>>, init: V, run: seq<State<V>>) {
    && run != [] && run[0] == State(init, seq(|reqs|, _ => Idle))
    && forall i :: 0 <= i < |run| - 1 ==> Step(ar, reqs, run[i], run[i + 1])
  }

  // ---------------------------------------------------------------- sequential explanations

  /** The calls in the order they take effect. */
  type History = seq<nat>

  /** The cell after the calls of a history, one at a time. */
  function Replay<V(==)>(ar: Arith<V>, reqs: seq<Request<V>>, init: V, h: History): V
    requires forall i :: 0 <= i < |h| ==> h[i] < |reqs|
  {
    if h == [] then init else After(ar, reqs[h[|h| - 1]], Replay(ar, reqs, init, h[..|h| - 1]))
  }

  ghost predicate IsHistory(h: History, n: nat) {
    (forall i :: 0 <= i < |h| ==> h[i] < n) && forall i, j :: 0 <= i < j < |h| ==> h[i] != h[j]
  }

  /** The value a call has returned or is bound to return. */
  ghost predicate Decided<V>(ar: Arith<V>, r: Request<V>, pc: Pc<V>, v: V) {
    pc == Done(v) || (pc == Loaded(v) && !Wants(ar, r, v))
  }

  ghost predicate Undecided<V>(ar: Arith<V>, r: Request<V>, pc: Pc<V>) {
    pc.Idle? || (pc.Loaded? && Wants(ar, r, pc.held))
  }

  /** The i-th call of the history has returned, or is bound to return, the value it found. */
  ghost predicate FoundByReplay<V>(ar: Arith<V>, reqs: seq<Request<V>>, init: V, s: State<V>, h: History, i: nat)
    requires |s.pcs| == |reqs| && IsHistory(h, |reqs|) && i < |h|
  {
    Decided(ar, reqs[h[i]], s.pcs[h[i]], Replay(ar, reqs, init, h[..i]))
  }

  /** The history explains the state: it has the decided calls, each with the value it found, and yields the cell. */
  ghost predicate Explains<V>(ar: Arith<V>, reqs: seq<Request<V>>, init: V, s: State<V>, h: History) {
    && |s.pcs| == |reqs| && IsHistory(h, |reqs|)
    && Replay(ar, reqs, init, h) == s.cell
    && (forall i :: 0 <= i < |h| ==> FoundByReplay(ar, reqs, init, s, h, i))
    && (forall t :: 0 <= t < |reqs| && t !in h ==> Undecided(ar, reqs[t], s.pcs[t]))
    && (forall t :: 0 <= t < |reqs| && s.pcs[t].Loaded? ==> Loops(reqs[t]))
  }

  /** A step that changes neither the cell nor what is decided. */
  lemma SameHistory<V>(ar: Arith<V>, reqs: seq<Request<V>>, init: V, s: State<V>, s': State<V>, h: History, t: nat)
    requires Explains(ar, reqs, init, s, h) && t < |reqs|
    requires |s'.pcs| == |reqs| && s' == State(s.cell, s.pcs[t := s'.pcs[t]]) && (s'.pcs[t].Loaded? ==> Loops(reqs[t]))
    requires if t in h then forall v :: Decided(ar, reqs[t], s.pcs[t], v) ==> Decided(ar, reqs[t], s'.pcs[t], v)
             else Undecided(ar, reqs[t], s'.pcs[t])
    ensures Explains(ar, reqs, init, s', h)
  {
    hide Decided, Undecided, Replay;
    forall i | 0 <= i < |h|
      ensures FoundByReplay(ar, reqs, init, s', h, i)
    {
      assert FoundByReplay(ar, reqs, init, s, h, i) && h[i] in h;
    }
  }

  /** A step at which call t takes effect. */
  lemma TakesEffect<V>(ar: Arith<V>, reqs: seq<Request<V>>, init: V, s: State<V>, s': State<V>, h: History, t: nat)
    requires Explains(ar, reqs, init, s, h) && t < |reqs| && t !in h
    requires |s'.pcs| == |reqs| && s' == State(After(ar, reqs[t], s.cell), s.pcs[t := s'.pcs[t]])
    requires Decided(ar, reqs[t], s'.pcs[t], s.cell) && (s'.pcs[t].Loaded? ==> Loops(reqs[t]))
    ensures Explains(ar, reqs, init, s', h + [t])
  {
    hide After, Decided, Undecided, Replay, FoundByReplay;
    var h' := h + [t];
    ExtendedHistory(h, t, |reqs|);
    forall i | 0 <= i < |h'|
      ensures FoundByReplay(ar, reqs, init, s', h', i)
    {
      if i < |h| {
        FoundBefore(ar, reqs, init, s, s', h, t, i);
      } else {
        FoundNow(ar, reqs, init, s', h, t);
      }
    }
    forall u | 0 <= u < |reqs| && u !in h'
      ensures Undecided(ar, reqs[u], s'.pcs[u])
    {
      assert h'[|h|] == t && u !in h;
    }
    ReplayOneMore(ar, reqs, init, h, t);
  }

  lemma ExtendedHistory(h: History, t: nat, n: nat)
    requires IsHistory(h, n) && t < n && t !in h
    ensures IsHistory(h + [t], n)
  {
  }

  lemma FoundBefore<V>(ar: Arith<V>, reqs: seq<Request<V>>, init: V, s: State<V>, s': State<V>, h: History, t: nat,
                       i: nat)
    requires |s.pcs| == |s'.pcs| == |reqs| && i < |h| && t < |reqs|
    requires IsHistory(h, |reqs|) && IsHistory(h + [t], |reqs|)
    requires FoundByReplay(ar, reqs, init, s, h, i) && s'.pcs == s.pcs[t := s'.pcs[t]]
    ensures FoundByReplay(ar, reqs, init, s', h + [t], i)
  {
    hide Decided, Replay;
    var h' := h + [t];
    assert h'[i] == h[i] && h'[..i] == h[..i] && h'[i] != h'[|h|];
  }

  lemma FoundNow<V>(ar: Arith<V>, reqs: seq<Request<V>>, init: V, s': State<V>, h: History, t: nat)
    requires |s'.pcs| == |reqs| && t < |reqs| && IsHistory(h, |reqs|) && IsHistory(h + [t], |reqs|)
    requires Decided(ar, reqs[t], s'.pcs[t], Replay(ar, reqs, init, h))
    ensures FoundByReplay(ar, reqs, init, s', h + [t], |h|)
  {
    hide Decided, Replay;
    assert (h + [t])[..|h|] == h;
  }

  lemma ReplayOneMore<V>(ar: Arith<V>, reqs: seq<Request<V>>, init: V, h: History, t: nat)
    requires t < |reqs| && forall i :: 0 <= i < |h| ==> h[i] < |reqs|
    ensures Replay(ar, reqs, init, h + [t]) == After(ar, reqs[t], Replay(ar, reqs, init, h))
  {
    assert (h + [t])[..|h|] == h;
  }

  /** A step of an undecided call leaves it undecided and the cell alone, or is its effect. */
  lemma StepOfUndecided<V>(ar: Arith<V>, reqs: seq<Request<V>>, s: State<V>, s': State<V>, t: nat, spurious: bool)
    requires t < |reqs| == |s.pcs| && StepOf(ar, reqs, s, s', t, spurious) && Undecided(ar, reqs[t], s.pcs[t])
    ensures |s'.pcs| == |s.pcs| && s'.pcs == s.pcs[t := s'.pcs[t]]
      && (s'.pcs[t].Loaded? ==> Loops(reqs[t]) || s.pcs[t].Loaded?)
    ensures if Undecided(ar, reqs[t], s'.pcs[t]) then s'.cell == s.cell
            else Decided(ar, reqs[t], s'.pcs[t], s.cell) && s'.cell == After(ar, reqs[t], s.cell)
  {
  }

  lemma StepOfDecided<V>(ar: Arith<V>, reqs: seq<Request<V>>, s: State<V>, s': State<V>, t: nat, spurious: bool, v: V)
    requires t < |reqs| == |s.pcs| && StepOf(ar, reqs, s, s', t, spurious) && Decided(ar, reqs[t], s.pcs[t], v)
    ensures s' == State(s.cell, s.pcs[t := Done(v)])
  {
  }

  /** Every step extends the history by at most one call. */
  lemma StepExtendsHistory<V>(ar: Arith<V>, reqs: seq<Request<V>>, init: V, s: State<V>, s': State<V>, h: History)
    returns (h': History)
    requires Explains(ar, reqs, init, s, h) && Step(ar, reqs, s, s')
    ensures Explains(ar, reqs, init, s', h') && (h' == h || (|h'| == |h| + 1 && h'[..|h|] == h))
  {
    hide StepOf, After, Replay, Wants;
    var t: nat, spurious :| t < |reqs| && StepOf(ar, reqs, s, s', t, spurious);
    if t in h {
      var i :| 0 <= i < |h| && h[i] == t;
      assert FoundByReplay(ar, reqs, init, s, h, i);
      StepOfDecided(ar, reqs, s, s', t, spurious, Replay(ar, reqs, init, h[..i]));
      SameHistory(ar, reqs, init, s, s', h, t);
      h' := h;
    } else {
      StepOfUndecided(ar, reqs, s, s', t, spurious);
      if Undecided(ar, reqs[t], s'.pcs[t]) {
        SameHistory(ar, reqs, init, s, s', h, t);
        h' := h;
      } else {
        TakesEffect(ar, reqs, init, s, s', h, t);
        h' := h + [t];
      }
    }
  }

  /** Along a run the histories grow at the end. */
  ghost predicate Histories<V>(ar: Arith<V>, reqs: seq<Request<V>>, init: V, run: seq<State<V>>, hs: seq<History>) {
    && |hs| == |run|
    && (forall i :: 0 <= i < |run| ==> Explains(ar, reqs, init, run[i], hs[i]))
    && forall i, j :: 0 <= i <= j < |run| ==> hs[i] <= hs[j]
  }

  lemma {:induction false} RunHasHistories<V>(ar: Arith<V>, reqs: seq<Request<V>>, init: V, run: seq<State<V>>)
    returns (hs: seq<History>)
    requires IsRun(ar, reqs, init, run)
    ensures Histories(ar, reqs, init, run, hs)
    decreases |run|
  {
    hide Explains, Step;
    var n := |run| - 1;
    if n == 0 {
      InitialExplains(ar, reqs, init, run[0]);
      hs := [[]];
    } else {
      var before := RunHasHistories(ar, reqs, init, run[..n]);
      var i := n - 1;
      assert Step(ar, reqs, run[i], run[i + 1]);
      var h := StepExtendsHistory(ar, reqs, init, run[i], run[i + 1], before[i]);
      hs := before + [h];
    }
  }

  lemma InitialExplains<V>(ar: Arith<V>, reqs: seq<Request<V>>, init: V, s: State<V>)
    requires s == State(init, seq(|reqs|, _ => Idle))
    ensures Explains(ar, reqs, init, s, [])
  {
  }

  /** order is a sequential execution of all calls that explains a finished run and respects real time. */
  ghost predicate IsLinearization<V>(ar: Arith<V>, reqs: seq<Request<V>>, init: V, run: seq<State<V>>, order: History)
    requires run != [] && forall i :: 0 <= i < |run| ==> |run[i].pcs| == |reqs|
  {
    var last := run[|run| - 1];
    && IsHistory(order, |reqs|) && (forall t: nat :: t < |reqs| ==> t in order)
    && Replay(ar, reqs, init, order) == last.cell
    && (forall i :: 0 <= i < |order| ==> last.pcs[order[i]] == Done(Replay(ar, reqs, init, order[..i])))
    && forall k, i, j :: 0 <= k < |run| && 0 <= i < |order| && 0 <= j < |order| ==>
         (run[k].pcs[order[i]].Done? && run[k].pcs[order[j]].Idle? ==> i < j)
  }

  ghost predicate AllDone<V>(s: State<V>) {
    forall t :: 0 <= t < |s.pcs| ==> s.pcs[t].Done?
  }

  /** Every run in which all calls have returned is explained by a sequential order of the calls. */
  lemma RunsLinearize<V>(ar: Arith<V>, reqs: seq<Request<V>>, init: V, run: seq<State<V>>) returns (order: History)
    requires IsRun(ar, reqs, init, run) && AllDone(run[|run| - 1])
    ensures forall i :: 0 <= i < |run| ==> |run[i].pcs| == |reqs|
    ensures IsLinearization(ar, reqs, init, run, order)
  {
    hide Explains, IsRun;
    assert run != [] by { RunIsNotEmpty(ar, reqs, init, run); }
    var hs := RunHasHistories(ar, reqs, init, run);
    var n := |run| - 1;
    order := hs[n];
    forall i | 0 <= i < |run|
      ensures |run[i].pcs| == |reqs|
    {
      HistoryIsValid(ar, reqs, init, run[i], hs[i]);
    }
    HistoryIsValid(ar, reqs, init, run[n], order);
    FinishedHistory(ar, reqs, init, run[n], order);
    forall k, i, j | 0 <= k < |run| && 0 <= i < |order| && 0 <= j < |order|
      && run[k].pcs[order[i]].Done? && run[k].pcs[order[j]].Idle?
      ensures i < j
    {
      RealTime(ar, reqs, init, run[k], hs[k], order, i, j);
    }
  }

  lemma RunIsNotEmpty<V>(ar: Arith<V>, reqs: seq<Request<V>>, init: V, run: seq<State<V>>)
    requires IsRun(ar, reqs, init, run)
    ensures run != []
  {
  }

  lemma HistoryIsValid<V>(ar: Arith<V>, reqs: seq<Request<V>>, init: V, s: State<V>, h: History)
    requires Explains(ar, reqs, init, s, h)
    ensures |s.pcs| == |reqs| && IsHistory(h, |reqs|) && Replay(ar, reqs, init, h) == s.cell
  {
  }

  lemma FinishedHistory<V>(ar: Arith<V>, reqs: seq<Request<V>>, init: V, s: State<V>, h: History)
    requires Explains(ar, reqs, init, s, h) && AllDone(s)
    ensures forall t: nat :: t < |reqs| ==> t in h
    ensures forall i :: 0 <= i < |h| ==> h[i] < |reqs| && s.pcs[h[i]] == Done(Replay(ar, reqs, init, h[..i]))
  {
    forall i | 0 <= i < |h|
      ensures s.pcs[h[i]] == Done(Replay(ar, reqs, init, h[..i]))
    {
      assert FoundByReplay(ar, reqs, init, s, h, i);
    }
  }

  /** A call that has returned while another has not started comes before it. */
  lemma RealTime<V>(ar: Arith<V>, reqs: seq<Request<V>>, init: V, s: State<V>, h: History, order: History, i: nat,
                    j: nat)
    requires Explains(ar, reqs, init, s, h) && h <= order && IsHistory(order, |reqs|) && i < |order| && j < |order|
    requires |s.pcs| == |reqs| && s.pcs[order[i]].Done? && s.pcs[order[j]].Idle?
    ensures i < j
  {
    hide Explains;
    assert forall m :: 0 <= m < |h| ==> order[m] == h[m] && order[m] in h;
    NotInHistory(ar, reqs, init, s, h, order[j]);
    InHistory(ar, reqs, init, s, h, order[i]);
    var m :| 0 <= m < |h| && h[m] == order[i];
    assert order[m] == order[i];
  }

  lemma InHistory<V>(ar: Arith<V>, reqs: seq<Request<V>>, init: V, s: State<V>, h: History, t: nat)
    requires Explains(ar, reqs, init, s, h) && t < |reqs| && s.pcs[t].Done?
    ensures t in h
  {
  }

  lemma NotInHistory<V>(ar: Arith<V>, reqs: seq<Request<V>>, init: V, s: State<V>, h: History, t: nat)
    requires Explains(ar, reqs, init, s, h) && t < |reqs| && s.pcs[t].Idle?
    ensures t !in h
  {
    forall i | 0 <= i < |h|
      ensures h[i] != t
    {
      assert FoundByReplay(ar, reqs, init, s, h, i);
    }
  }

  // ---------------------------------------------------------------- maximum only

  ghost predicate OnlyMax(reqs: seq<Request<int>>) {
    forall t :: 0 <= t < |reqs| ==> reqs[t].Max?
  }

  const INT_ARITH := Arith((a: int, b: int) => a < b, (a: int, b: int) => a + b)

  lemma {:induction false} ReplayOfMax(reqs: seq<Request<int>>, init: int, h: History)
    requires OnlyMax(reqs) && IsHistory(h, |reqs|)
    ensures var m := Replay(INT_ARITH, reqs, init, h);
      && m >= init && (forall i :: 0 <= i < |h| ==> m >= reqs[h[i]].val)
      && (m == init || exists i :: 0 <= i < |h| && m == reqs[h[i]].val)
  {
    if h != [] {
      var n := |h| - 1;
      ReplayOfMax(reqs, init, h[..n]);
      var before := Replay(INT_ARITH, reqs, init, h[..n]);
      assert reqs[h[n]].Max?;
      if reqs[h[n]].val <= before && before != init {
        var i :| 0 <= i < n && before == reqs[h[..n][i]].val;
        assert before == reqs[h[i]].val;
      }
    }
  }

  /** With maximum operations only, the cell ends as the maximum of its initial value and all operands. */
  lemma MaximaReachTheMaximum(reqs: seq<Request<int>>, init: int, run: seq<State<int>>)
    requires IsRun(INT_ARITH, reqs, init, run) && AllDone(run[|run| - 1]) && OnlyMax(reqs)
    ensures var final := run[|run| - 1].cell;
      && final >= init && (forall t :: 0 <= t < |reqs| ==> final >= reqs[t].val)
      && (final == init || exists t :: 0 <= t < |reqs| && final == reqs[t].val)
  {
    hide IsRun;
    RunIsNotEmpty(INT_ARITH, reqs, init, run);
    var order := RunsLinearize(INT_ARITH, reqs, init, run);
    ReplayOfMax(reqs, init, order);
    forall t: nat | t < |reqs|
      ensures run[|run| - 1].cell >= reqs[t].val
    {
      assert t in order;
    }
  }

  // ---------------------------------------------------------------- the other operations

  /** What a step of call t leaves in the cell, in terms of the value the call returns. */
  lemma StepStores<V>(ar: Arith<V>, reqs: seq<Request<V>>, s: State<V>, s': State<V>, t: nat, spurious: bool)
    requires t < |reqs| == |s.pcs| && StepOf(ar, reqs, s, s', t, spurious)
    ensures |s'.pcs| == |s.pcs| && (!s'.pcs[t].Done? ==> s'.cell == s.cell)
    ensures s'.pcs[t].Done? ==>
      var ret := s'.pcs[t].ret;
      match reqs[t]
      case Min(val) => if ar.less(val, ret) then ret == s.cell && s'.cell == val else s'.cell == s.cell
      case Max(val) => if ar.less(ret, val) then ret == s.cell && s'.cell == val else s'.cell == s.cell
      case Add(val) => ret == s.cell && s'.cell == ar.plus(ret, val)
      case Exchange(val) => ret == s.cell && s'.cell == val
      case CompareExchange(expected, val) => ret == s.cell && s'.cell == if ret == expected then val else ret
  {
  }

  ghost predicate OnlyMin(reqs: seq<Request<int>>) {
    forall t :: 0 <= t < |reqs| ==> reqs[t].Min?
  }

  lemma {:induction false} ReplayOfMin(reqs: seq<Request<int>>, init: int, h: History)
    requires OnlyMin(reqs) && IsHistory(h, |reqs|)
    ensures var m := Replay(INT_ARITH, reqs, init, h);
      && m <= init && (forall i :: 0 <= i < |h| ==> m <= reqs[h[i]].val)
      && (m == init || exists i :: 0 <= i < |h| && m == reqs[h[i]].val)
  {
    if h != [] {
      var n := |h| - 1;
      ReplayOfMin(reqs, init, h[..n]);
      var before := Replay(INT_ARITH, reqs, init, h[..n]);
      assert reqs[h[n]].Min?;
      if reqs[h[n]].val >= before && before != init {
        var i :| 0 <= i < n && before == reqs[h[..n][i]].val;
        assert before == reqs[h[i]].val;
      }
    }
  }

  /** With minimum operations only, the cell ends as the minimum of its initial value and all operands. */
  lemma MinimaReachTheMinimum(reqs: seq<Request<int>>, init: int, run: seq<State<int>>)
    requires IsRun(INT_ARITH, reqs, init, run) && AllDone(run[|run| - 1]) && OnlyMin(reqs)
    ensures var final := run[|run| - 1].cell;
      && final <= init && (forall t :: 0 <= t < |reqs| ==> final <= reqs[t].val)
      && (final == init || exists t :: 0 <= t < |reqs| && final == reqs[t].val)
  {
    hide IsRun;
    RunIsNotEmpty(INT_ARITH, reqs, init, run);
    var order := RunsLinearize(INT_ARITH, reqs, init, run);
    ReplayOfMin(reqs, init, order);
    forall t: nat | t < |reqs|
      ensures run[|run| - 1].cell <= reqs[t].val
    {
      assert t in order;
    }
  }

  ghost predicate OnlyAdd(reqs: seq<Request<int>>) {
    forall t :: 0 <= t < |reqs| ==> reqs[t].Add?
  }

  /** The sum of the operands of the first n calls, of those in done only. */
  function Added(reqs: seq<Request<int>>, done: set<nat>, n: nat): int
    requires n <= |reqs| && OnlyAdd(reqs)
  {
    if n == 0 then 0 else Added(reqs, done, n - 1) + (if n - 1 in done then reqs[n - 1].val else 0)
  }

  lemma {:induction false} AddedAgree(reqs: seq<Request<int>>, a: set<nat>, b: set<nat>, n: nat)
    requires n <= |reqs| && OnlyAdd(reqs) && forall t: nat :: t < n ==> (t in a <==> t in b)
    ensures Added(reqs, a, n) == Added(reqs, b, n)
  {
    if n > 0 {
      AddedAgree(reqs, a, b, n - 1);
    }
  }

  lemma {:induction false} AddedOneMore(reqs: seq<Request<int>>, done: set<nat>, t: nat, n: nat)
    requires t < n <= |reqs| && OnlyAdd(reqs) && t !in done
    ensures Added(reqs, done + {t}, n) == Added(reqs, done, n) + reqs[t].val
  {
    if t == n - 1 {
      AddedAgree(reqs, done, done + {t}, n - 1);
    } else {
      AddedOneMore(reqs, done, t, n - 1);
    }
  }

  lemma {:induction false} NothingAdded(reqs: seq<Request<int>>, n: nat)
    requires n <= |reqs| && OnlyAdd(reqs)
    ensures Added(reqs, {}, n) == 0
  {
    if n > 0 {
      NothingAdded(reqs, n - 1);
    }
  }

  lemma {:induction false} ReplayOfAdd(reqs: seq<Request<int>>, init: int, h: History)
    requires OnlyAdd(reqs) && IsHistory(h, |reqs|)
    ensures Replay(INT_ARITH, reqs, init, h) == init + Added(reqs, Elems(h), |reqs|)
  {
    if h == [] {
      assert Elems(h) == {};
      NothingAdded(reqs, |reqs|);
    } else {
      var n := |h| - 1;
      ReplayOfAdd(reqs, init, h[..n]);
      assert Elems(h) == Elems(h[..n]) + {h[n]};
      AddedOneMore(reqs, Elems(h[..n]), h[n], |reqs|);
      assert reqs[h[n]].Add?;
    }
  }

  /** The sum of all operands. */
  function SumOfOperands(reqs: seq<Request<int>>, n: nat): int
    requires n <= |reqs| && OnlyAdd(reqs)
  {
    if n == 0 then 0 else SumOfOperands(reqs, n - 1) + reqs[n - 1].val
  }

  lemma {:induction false} AllAdded(reqs: seq<Request<int>>, done: set<nat>, n: nat)
    requires n <= |reqs| && OnlyAdd(reqs) && forall t: nat :: t < n ==> t in done
    ensures Added(reqs, done, n) == SumOfOperands(reqs, n)
  {
    if n > 0 {
      AllAdded(reqs, done, n - 1);
    }
  }

  /** With additions only, no addition is lost: the cell ends as its initial value plus all operands. */
  lemma NoAdditionIsLost(reqs: seq<Request<int>>, init: int, run: seq<State<int>>)
    requires IsRun(INT_ARITH, reqs, init, run) && AllDone(run[|run| - 1]) && OnlyAdd(reqs)
    ensures run[|run| - 1].cell == init + SumOfOperands(reqs, |reqs|)
  {
    hide IsRun;
    RunIsNotEmpty(INT_ARITH, reqs, init, run);
    var order := RunsLinearize(INT_ARITH, reqs, init, run);
    ReplayOfAdd(reqs, init, order);
    AllAdded(reqs, Elems(order), |reqs|);
  }

  // ---------------------------------------------------------------- progress

  /** How far a call is from its end: a value in hand that is out of date costs one more round. */
  function Distance<V(==)>(pc: Pc<V>, cell: V, n: nat): nat {
    match pc
    case Idle => n + 3
    case Loaded(held) => if held == cell then n + 1 else n + 2
    case Done(_) => 0
  }

  function TotalDistance<V(==)>(pcs: seq<Pc<V>>, cell: V, n: nat): nat {
    if pcs == [] then 0 else TotalDistance(pcs[..|pcs| - 1], cell, n) + Distance(pcs[|pcs| - 1], cell, n)
  }

  lemma {:induction false} DistanceUpdate<V>(pcs: seq<Pc<V>>, cell: V, n: nat, t: nat, pc: Pc<V>)
    requires t < |pcs|
    ensures TotalDistance(pcs[t := pc], cell, n) + Distance(pcs[t], cell, n)
         == TotalDistance(pcs, cell, n) + Distance(pc, cell, n)
  {
    var k := |pcs| - 1;
    if t == k {
      assert pcs[t := pc][..k] == pcs[..k];
    } else {
      assert pcs[t := pc][..k] == pcs[..k][t := pc];
      DistanceUpdate(pcs[..k], cell, n, t, pc);
    }
  }

  /** A store to the cell puts each other call back by at most one round. */
  lemma {:induction false} DistanceAfterStore<V>(pcs: seq<Pc<V>>, cell: V, cell': V, n: nat, t: nat)
    requires t < |pcs| && pcs[t].Done?
    ensures TotalDistance(pcs, cell', n) <= TotalDistance(pcs, cell, n) + |pcs| - 1
  {
    var k := |pcs| - 1;
    if t < k {
      DistanceAfterStore(pcs[..k], cell, cell', n, t);
    } else {
      DistanceAfterAny(pcs[..k], cell, cell', n);
    }
  }

  lemma {:induction false} DistanceAfterAny<V>(pcs: seq<Pc<V>>, cell: V, cell': V, n: nat)
    ensures TotalDistance(pcs, cell', n) <= TotalDistance(pcs, cell, n) + |pcs|
  {
    if pcs != [] {
      DistanceAfterAny(pcs[..|pcs| - 1], cell, cell', n);
    }
  }

  /** Every step that is not a spurious failure brings the calls as a whole nearer to their end. */
  lemma StepMakesProgress<V>(ar: Arith<V>, reqs: seq<Request<V>>, s: State<V>, s': State<V>, t: nat)
    requires t < |reqs| == |s.pcs| && StepOf(ar, reqs, s, s', t, false)
    ensures |s'.pcs| == |s.pcs|
    ensures TotalDistance(s'.pcs, s'.cell, |reqs|) < TotalDistance(s.pcs, s.cell, |reqs|)
  {
    hide After, Wants;
    DistanceUpdate(s.pcs, s.cell, |reqs|, t, s'.pcs[t]);
    assert s'.pcs == s.pcs[t := s'.pcs[t]];
    if CasSucceeds(ar, reqs, s, s', t) || AtOnce(ar, reqs, s, s', t) {
      DistanceAfterStore(s'.pcs, s.cell, s'.cell, |reqs|, t);
    }
  }

  lemma {:induction false} InitialDistance<V>(pcs: seq<Pc<V>>, cell: V, n: nat)
    requires forall t :: 0 <= t < |pcs| ==> pcs[t].Idle?
    ensures TotalDistance(pcs, cell, n) == |pcs| * (n + 3)
  {
    if pcs != [] {
      InitialDistance(pcs[..|pcs| - 1], cell, n);
      assert |pcs| * (n + 3) == (|pcs| - 1) * (n + 3) + (n + 3);
    }
  }

  ghost predicate HonestRun<V>(ar: Arith<V>, reqs: seq<Request<V>>, init: V, run: seq<State<V>>) {
    && run != [] && run[0] == State(init, seq(|reqs|, _ => Idle))
    && forall i :: 0 <= i < |run| - 1 ==> HonestStep(ar, reqs, run[i], run[i + 1])
  }

  ghost predicate HonestStep<V>(ar: Arith<V>, reqs: seq<Request<V>>, s: State<V>, s': State<V>) {
    |reqs| == |s.pcs| && exists t: nat :: t < |reqs| && StepOf(ar, reqs, s, s', t, false)
  }

  /** Without spurious failures, n calls finish together within n * (n + 3) steps, whatever the interleaving. */
  lemma {:induction false} RunsAreShort<V>(ar: Arith<V>, reqs: seq<Request<V>>, init: V, run: seq<State<V>>)
    requires HonestRun(ar, reqs, init, run)
    ensures var last := run[|run| - 1];
      |last.pcs| == |reqs| && |run| - 1 + TotalDistance(last.pcs, last.cell, |reqs|) <= |reqs| * (|reqs| + 3)
    decreases |run|
  {
    hide StepOf, TotalDistance;
    var n := |run| - 1;
    if n == 0 {
      InitialDistance(run[0].pcs, init, |reqs|);
    } else {
      RunsAreShort(ar, reqs, init, run[..n]);
      var i := n - 1;
      assert HonestStep(ar, reqs, run[i], run[i + 1]);
      var t: nat :| t < |reqs| && StepOf(ar, reqs, run[i], run[n], t, false);
      StepMakesProgress(ar, reqs, run[i], run[n], t);
    }
  }

  /** A call that has not returned can always take a step. */
  lemma NobodyIsStuck<V>(ar: Arith<V>, reqs: seq<Request<V>>, s: State<V>, t: nat) returns (s': State<V>)
    requires t < |reqs| == |s.pcs| && !s.pcs[t].Done? && (s.pcs[t].Loaded? ==> Loops(reqs[t]))
    ensures StepOf(ar, reqs, s, s', t, false)
  {
    match s.pcs[t]
    case Idle =>
      s' := if Loops(reqs[t]) then State(s.cell, s.pcs[t := Loaded(s.cell)])
            else State(After(ar, reqs[t], s.cell), s.pcs[t := Done(s.cell)]);
    case Loaded(held) =>
      if !Wants(ar, reqs[t], held) {
        s' := State(s.cell, s.pcs[t := Done(held)]);
      } else if s.cell == held {
        s' := State(After(ar, reqs[t], s.cell), s.pcs[t := Done(s.cell)]);
      } else {
        s' := State(s.cell, s.pcs[t := Loaded(s.cell)]);
      }
  }
}
