/** Factoring a permutation of register and lane bits into one of registers, one of lanes, and mixed transpositions. */
module PermutationFactoring {
  import opened Basics

  /** A basis vector of the register or of the lane dimension. */
  datatype Loc = Reg(idx: nat) | Lane(idx: nat)

  /** Where the skeleton sends each register and each lane basis vector. */
  datatype Skeleton = Skeleton(regs: seq<Loc>, lanes: seq<Loc>) {

    predicate Has(x: Loc) {
      x.idx < if x.Reg? then |regs| else |lanes|
    }

    function Next(x: Loc): Loc
      requires Has(x)
    {
      if x.Reg? then regs[x.idx] else lanes[x.idx]
    }

    ghost predicate IsPermutation() {
      && (forall x :: Has(x) ==> Has(Next(x)))
      && forall x, y :: Has(x) && Has(y) && Next(x) == Next(y) ==> x == y
    }

    ghost function All(): (s: set<Loc>)
      ensures forall x :: x in s <==> Has(x)
    {
      (set i | 0 <= i < |regs| :: Reg(i)) + set i | 0 <= i < |lanes| :: Lane(i)
    }

    /** The registers that are sent to a lane. */
    ghost function Crossing(): (s: set<nat>)
      ensures forall r: nat :: r in s <==> r < |regs| && regs[r].Lane?
    {
      set r: nat | r < |regs| && regs[r].Lane?
    }
  }

  // ---------------------------------------------------------------- transpositions

  function Transpose(t: (nat, nat), x: Loc): Loc {
    if x == Reg(t.0) then Lane(t.1) else if x == Lane(t.1) then Reg(t.0) else x
  }

  /** The product of the transpositions, the first applied first. */
  function TransposeAll(ts: seq<(nat, nat)>, x: Loc): Loc {
    if ts == [] then x else Transpose(ts[|ts| - 1], TransposeAll(ts[..|ts| - 1], x))
  }

  ghost predicate PairwiseDisjoint(ts: seq<(nat, nat)>) {
    forall j, k :: 0 <= j < k < |ts| ==> ts[j].0 != ts[k].0 && ts[j].1 != ts[k].1
  }

  ghost predicate Mentions(ts: seq<(nat, nat)>, x: Loc) {
    exists k :: 0 <= k < |ts| && (x == Reg(ts[k].0) || x == Lane(ts[k].1))
  }

  /** Disjoint transpositions swap each of their pairs and fix everything else. */
  lemma {:induction false} TransposeAllSwaps(ts: seq<(nat, nat)>, x: Loc)
    requires PairwiseDisjoint(ts)
    ensures !Mentions(ts, x) ==> TransposeAll(ts, x) == x
    ensures forall k :: 0 <= k < |ts| && x == Reg(ts[k].0) ==> TransposeAll(ts, x) == Lane(ts[k].1)
    ensures forall k :: 0 <= k < |ts| && x == Lane(ts[k].1) ==> TransposeAll(ts, x) == Reg(ts[k].0)
  {
    if ts != [] {
      var n := |ts| - 1;
      TransposeAllSwaps(ts[..n], x);
      if Mentions(ts[..n], x) {
        var k :| 0 <= k < n && (x == Reg(ts[..n][k].0) || x == Lane(ts[..n][k].1));
        assert ts[k].0 != ts[n].0 && ts[k].1 != ts[n].1;
      } else {
        assert TransposeAll(ts[..n], x) == x;
        if x == Reg(ts[n].0) || x == Lane(ts[n].1) {
          assert Mentions(ts, x);
        }
        forall k | 0 <= k < n
          ensures x != Reg(ts[k].0) && x != Lane(ts[k].1)
        {
          assert ts[..n][k] == ts[k];
        }
      }
    }
  }

  // ---------------------------------------------------------------- the factorization

  ghost predicate IsPermutationOf(p: seq<int>, n: nat) {
    && |p| == n
    && (forall i :: 0 <= i < n ==> 0 <= p[i] < n)
    && forall i, j :: 0 <= i < j < n ==> p[i] != p[j]
  }

  /** pReg and pLane side by side. */
  ghost function Within(pReg: seq<int>, pLane: seq<int>, x: Loc): Loc
    requires IsPermutationOf(pReg, |pReg|) && IsPermutationOf(pLane, |pLane|)
    requires x.idx < if x.Reg? then |pReg| else |pLane|
  {
    if x.Reg? then Reg(pReg[x.idx]) else Lane(pLane[x.idx])
  }

  /** P = mixed . pLane . pReg, with one transposition for each register that P sends to a lane. */
  ghost predicate IsFactorization(P: Skeleton, pReg: seq<int>, pLane: seq<int>, mixed: seq<(nat, nat)>) {
    && IsPermutationOf(pReg, |P.regs|) && IsPermutationOf(pLane, |P.lanes|)
    && PairwiseDisjoint(mixed) && (forall k :: 0 <= k < |mixed| ==> mixed[k].0 < |P.regs| && mixed[k].1 < |P.lanes|)
    && |mixed| == |P.Crossing()|
    && forall x :: P.Has(x) ==> TransposeAll(mixed, Within(pReg, pLane, x)) == P.Next(x)
  }

  // ---------------------------------------------------------------- the cycle walk

  /** A set of bits that the permutation maps into itself holds the preimages of its members too. */
  lemma ClosedBackwards(P: Skeleton, V: set<Loc>, x: Loc)
    requires P.IsPermutation() && V <= P.All() && P.Has(x) && P.Next(x) in V
    requires forall v :: v in V ==> P.Next(v) in V
    ensures x in V
  {
    var image := set v | v in V :: P.Next(v);
    ImageSize(P, V);
    SubsetIsAll(image, V);
    var u :| u in V && P.Next(u) == P.Next(x);
  }

  lemma SubsetIsAll<T>(a: set<T>, b: set<T>)
    requires a <= b && |a| == |b|
    ensures a == b
  {
    assert |b - a| == 0;
  }

  lemma {:induction false} ImageSize(P: Skeleton, V: set<Loc>)
    requires P.IsPermutation() && V <= P.All()
    ensures |set v | v in V :: P.Next(v)| == |V|
    decreases V
  {
    var image := set v | v in V :: P.Next(v);
    if V != {} {
      var x :| x in V;
      var rest := set v | v in V - {x} :: P.Next(v);
      ImageSize(P, V - {x});
      assert image == rest + {P.Next(x)};
      assert P.Next(x) !in rest;
    }
  }

  /** What the walk has recorded; -1 stands for a zero basis vector. */
  datatype Record = Record(regBases: seq<int>, laneBases: seq<int>, mixed: seq<(nat, nat)>)

  /** mixed[k] came from register starts[k], sent to a lane, and lane ends[k], sent to a register. */
  ghost predicate Explains(P: Skeleton, r: Record, visited: set<Loc>, starts: seq<nat>, ends: seq<nat>, k: nat)
    requires k < |starts| == |ends| == |r.mixed|
  {
    && Reg(starts[k]) in visited && P.Has(Reg(starts[k])) && P.regs[starts[k]] == Lane(r.mixed[k].1)
    && Lane(ends[k]) in visited && P.Has(Lane(ends[k])) && P.lanes[ends[k]] == Reg(r.mixed[k].0)
    && starts[k] < |r.regBases| && r.regBases[starts[k]] == r.mixed[k].0
    && ends[k] < |r.laneBases| && r.laneBases[ends[k]] == r.mixed[k].1
  }

  /** The factored transpositions, each with the segment it came from. */
  ghost predicate Explained(P: Skeleton, r: Record, visited: set<Loc>, starts: seq<nat>, ends: seq<nat>) {
    && |starts| == |ends| == |r.mixed|
    && (forall k :: 0 <= k < |starts| ==> Explains(P, r, visited, starts, ends, k))
    && forall j, k :: 0 <= j < k < |starts| ==> starts[j] != starts[k] && ends[j] != ends[k]
  }

  /** Every visited bit has its value recorded, or is in a list, except a register `pending` whose segment is open. */
  ghost predicate Covered(P: Skeleton, r: Record, visited: set<Loc>, starts: seq<nat>, ends: seq<nat>, pending: int)
    requires |r.regBases| == |P.regs| && |r.laneBases| == |P.lanes|
  {
    && (forall i :: 0 <= i < |P.regs| && Reg(i) in visited && P.regs[i].Reg? ==> r.regBases[i] == P.regs[i].idx)
    && (forall i :: 0 <= i < |P.lanes| && Lane(i) in visited && P.lanes[i].Lane? ==> r.laneBases[i] == P.lanes[i].idx)
    && (forall i :: 0 <= i < |P.regs| && Reg(i) in visited && P.regs[i].Lane? && i != pending ==> i in starts)
    && (forall i :: 0 <= i < |P.lanes| && Lane(i) in visited && P.lanes[i].Reg? ==> i in ends)
  }

  /** The record is right for every visited bit except a register `pending` whose segment of lanes is still open. */
  ghost predicate Recorded(P: Skeleton, r: Record, visited: set<Loc>, starts: seq<nat>, ends: seq<nat>, pending: int) {
    && |r.regBases| == |P.regs| && |r.laneBases| == |P.lanes|
    && Explained(P, r, visited, starts, ends) && Covered(P, r, visited, starts, ends, pending)
    && pending !in starts
    && (pending == -1 || (0 <= pending < |P.regs| && Reg(pending) in visited && P.regs[pending].Lane?))
  }

  lemma RecordWithin(P: Skeleton, r: Record, V: set<Loc>, starts: seq<nat>, ends: seq<nat>, pending: int, i: nat,
                     j: nat)
    requires Recorded(P, r, V, starts, ends, pending) && Reg(i) !in V && i < |P.regs| && P.regs[i] == Reg(j)
    ensures Recorded(P, r.(regBases := r.regBases[i := j]), V + {Reg(i)}, starts, ends, pending)
  {
    var r' := r.(regBases := r.regBases[i := j]);
    forall k | 0 <= k < |starts|
      ensures Explains(P, r', V + {Reg(i)}, starts, ends, k)
    {
      assert Explains(P, r, V, starts, ends, k);
    }
  }

  lemma RecordLane(P: Skeleton, r: Record, V: set<Loc>, starts: seq<nat>, ends: seq<nat>, pending: int, i: nat, j: nat)
    requires Recorded(P, r, V, starts, ends, pending) && Lane(i) !in V && i < |P.lanes| && P.lanes[i] == Lane(j)
    ensures Recorded(P, r.(laneBases := r.laneBases[i := j]), V + {Lane(i)}, starts, ends, pending)
  {
    var r' := r.(laneBases := r.laneBases[i := j]);
    forall k | 0 <= k < |starts|
      ensures Explains(P, r', V + {Lane(i)}, starts, ends, k)
    {
      assert Explains(P, r, V, starts, ends, k);
    }
  }

  lemma RecordOpen(P: Skeleton, r: Record, V: set<Loc>, starts: seq<nat>, ends: seq<nat>, i: nat)
    requires Recorded(P, r, V, starts, ends, -1) && Reg(i) !in V && i < |P.regs| && P.regs[i].Lane?
    ensures Recorded(P, r, V + {Reg(i)}, starts, ends, i)
  {
    forall k | 0 <= k < |starts|
      ensures Explains(P, r, V + {Reg(i)}, starts, ends, k) && starts[k] != i
    {
      assert Explains(P, r, V, starts, ends, k);
    }
  }

  /** Closing the segment of lanes that register m opened: lane i leads to register j. */
  lemma RecordClose(P: Skeleton, r: Record, V: set<Loc>, starts: seq<nat>, ends: seq<nat>, m: nat, i: nat, j: nat,
                    first: nat)
    requires Recorded(P, r, V, starts, ends, m) && Lane(i) !in V && i < |P.lanes| && P.lanes[i] == Reg(j)
    requires m < |P.regs| && P.regs[m] == Lane(first)
    ensures Recorded(P, Record(r.regBases[m := j], r.laneBases[i := first], r.mixed + [(j, first)]), V + {Lane(i)},
                     starts + [m], ends + [i], -1)
  {
    hide Explained, Covered;
    CloseExplained(P, r, V, starts, ends, m, i, j, first);
    CloseCovered(P, r, V, starts, ends, m, i, j, first);
  }

  lemma CloseExplained(P: Skeleton, r: Record, V: set<Loc>, starts: seq<nat>, ends: seq<nat>, m: nat, i: nat, j: nat,
                       first: nat)
    requires Recorded(P, r, V, starts, ends, m) && Lane(i) !in V && i < |P.lanes| && P.lanes[i] == Reg(j)
    requires m < |P.regs| && P.regs[m] == Lane(first)
    ensures Explained(P, Record(r.regBases[m := j], r.laneBases[i := first], r.mixed + [(j, first)]), V + {Lane(i)},
                      starts + [m], ends + [i])
  {
    hide Explains, Covered;
    var r' := Record(r.regBases[m := j], r.laneBases[i := first], r.mixed + [(j, first)]);
    forall k | 0 <= k < |starts|
      ensures Explains(P, r', V + {Lane(i)}, starts + [m], ends + [i], k) && starts[k] != m && ends[k] != i
    {
      ExplanationKept(P, r, V, starts, ends, m, i, j, first, k);
    }
    NewExplanation(P, r, V, starts, ends, m, i, j, first);
  }

  lemma CloseCovered(P: Skeleton, r: Record, V: set<Loc>, starts: seq<nat>, ends: seq<nat>, m: nat, i: nat, j: nat,
                     first: nat)
    requires |r.regBases| == |P.regs| && |r.laneBases| == |P.lanes| && Covered(P, r, V, starts, ends, m)
    requires i < |P.lanes| && P.lanes[i] == Reg(j) && m < |P.regs| && P.regs[m] == Lane(first)
    ensures Covered(P, Record(r.regBases[m := j], r.laneBases[i := first], r.mixed + [(j, first)]), V + {Lane(i)},
                    starts + [m], ends + [i], -1)
  {
    OneMoreMember(starts, m);
    OneMoreMember(ends, i);
  }

  lemma OneMoreMember(s: seq<nat>, e: nat)
    ensures forall x :: x in s + [e] <==> x in s || x == e
  {
  }

  lemma ExplanationKept(P: Skeleton, r: Record, V: set<Loc>, starts: seq<nat>, ends: seq<nat>,
                        m: nat, i: nat, j: nat, first: nat, k: nat)
    requires |starts| == |ends| == |r.mixed| && k < |starts| && Explains(P, r, V, starts, ends, k)
    requires Lane(i) !in V && m !in starts && m < |r.regBases| && i < |r.laneBases|
    ensures starts[k] != m && ends[k] != i
    ensures Explains(P, Record(r.regBases[m := j], r.laneBases[i := first], r.mixed + [(j, first)]), V + {Lane(i)},
                     starts + [m], ends + [i], k)
  {
    assert starts[k] in starts;
  }

  lemma NewExplanation(P: Skeleton, r: Record, V: set<Loc>, starts: seq<nat>, ends: seq<nat>, m: nat, i: nat, j: nat,
                       first: nat)
    requires |starts| == |ends| == |r.mixed| && |r.regBases| == |P.regs| && |r.laneBases| == |P.lanes|
    requires i < |P.lanes| && P.lanes[i] == Reg(j) && m < |P.regs| && P.regs[m] == Lane(first) && Reg(m) in V
    ensures Explains(P, Record(r.regBases[m := j], r.laneBases[i := first], r.mixed + [(j, first)]), V + {Lane(i)},
                     starts + [m], ends + [i], |starts|)
  {
  }

  ghost predicate HasPredecessor(P: Skeleton, W: set<Loc>, x: Loc) {
    exists u :: u in W && P.Has(u) && P.Next(u) == x
  }

  /** The part W of a cycle walked so far from entry, about to visit curr. */
  ghost predicate Walking(P: Skeleton, V: set<Loc>, W: set<Loc>, entry: Loc, curr: Loc) {
    && V <= P.All() && W <= P.All() && V !! W && P.Has(curr)
    && (forall w :: w in W ==> P.Next(w) in W || P.Next(w) == curr)
    && (forall w :: w in W + {curr} && w != entry ==> HasPredecessor(P, W, w))
    && (if W == {} then curr == entry else entry in W)
  }

  /** The next bit of the cycle is new, or the walk is back at its entry. */
  lemma NextIsFresh(P: Skeleton, V: set<Loc>, W: set<Loc>, entry: Loc, curr: Loc)
    requires P.IsPermutation() && Walking(P, V, W, entry, curr) && curr !in V + W
    requires forall v :: v in V ==> P.Next(v) in V
    ensures Walking(P, V, W + {curr}, entry, P.Next(curr))
    ensures P.Next(curr) in V + W + {curr} ==> P.Next(curr) == entry
  {
    var next, W' := P.Next(curr), W + {curr};
    if next in V {
      ClosedBackwards(P, V, curr);
    }
    assert !HasPredecessor(P, W, next);
    forall w | w in W' + {next} && w != entry
      ensures HasPredecessor(P, W', w)
    {
      if w in W + {curr} {
        assert HasPredecessor(P, W, w);
      } else {
        assert curr in W' && P.Next(curr) == w;
      }
    }
  }

  /** Walks the cycle of a bit not yet visited, factoring out a transposition for each segment of lanes. */
  method WalkCycle(P: Skeleton, entry: Loc, visited0: set<Loc>, r0: Record, ghost starts0: seq<nat>,
                   ghost ends0: seq<nat>)
    returns (visited: set<Loc>, r: Record, ghost starts: seq<nat>, ghost ends: seq<nat>)
    requires P.IsPermutation() && P.Has(entry) && entry !in visited0 && visited0 <= P.All()
    requires forall v :: v in visited0 ==> P.Next(v) in visited0
    requires entry.Lane? ==> forall i :: 0 <= i < |P.regs| ==> Reg(i) in visited0
    requires Recorded(P, r0, visited0, starts0, ends0, -1)
    ensures visited0 + {entry} <= visited <= P.All()
    ensures forall v :: v in visited ==> P.Next(v) in visited
    ensures Recorded(P, r, visited, starts, ends, -1)
  {
    hide Recorded, Skeleton.IsPermutation, Walking;
    visited, r, starts, ends := visited0, r0, starts0, ends0;
    var curr := entry;
    ghost var W: set<Loc> := {};
    var regStartIdx: int, laneStartIdx: int := -1, -1;
    StartWalking(P, visited0, entry);
    RecordSizes(P, r0, visited0, starts0, ends0);
    var back := false;
    while !back
      invariant visited == visited0 + W && Walking(P, visited0, W, entry, curr)
      invariant if back then curr == entry && entry in W else curr !in visited
      invariant Recorded(P, r, visited, starts, ends, regStartIdx)
      invariant |r.regBases| == |P.regs| && |r.laneBases| == |P.lanes|
      invariant curr.Reg? ==> regStartIdx == -1
      invariant entry.Reg? && curr.Lane? ==>
        0 <= regStartIdx < |P.regs| && laneStartIdx >= 0 && P.regs[regStartIdx] == Lane(laneStartIdx)
      invariant entry.Lane? ==> curr.Lane? && regStartIdx == -1
      decreases !back, P.All() - visited
    {
      WalkingHas(P, visited0, W, entry, curr);
      NextIsFresh(P, visited0, W, entry, curr);
      var next := P.Next(curr);
      if curr.Reg? && next.Reg? {
        RecordWithin(P, r, visited, starts, ends, regStartIdx, curr.idx, next.idx);
        r := r.(regBases := r.regBases[curr.idx := next.idx]);
      } else if curr.Lane? && next.Lane? {
        RecordLane(P, r, visited, starts, ends, regStartIdx, curr.idx, next.idx);
        r := r.(laneBases := r.laneBases[curr.idx := next.idx]);
      } else if curr.Reg? && next.Lane? {
        RecordOpen(P, r, visited, starts, ends, curr.idx);
        regStartIdx, laneStartIdx := curr.idx, next.idx;
      } else {
        var regEndIdx, laneEndIdx := next.idx, curr.idx;
        WalkingHas(P, visited0, W + {curr}, entry, next);
        RecordClose(P, r, visited, starts, ends, regStartIdx, laneEndIdx, regEndIdx, laneStartIdx);
        r := Record(r.regBases[regStartIdx := regEndIdx], r.laneBases[laneEndIdx := laneStartIdx],
                    r.mixed + [(regEndIdx, laneStartIdx)]);
        starts, ends := starts + [regStartIdx], ends + [laneEndIdx];
        regStartIdx, laneStartIdx := -1, -1;
      }
      visited := visited + {curr};
      W := W + {curr};
      curr := next;
      back := curr == entry;
    }
    CycleIsClosed(P, visited0, W, entry);
  }

  lemma RecordSizes(P: Skeleton, r: Record, V: set<Loc>, starts: seq<nat>, ends: seq<nat>)
    requires Recorded(P, r, V, starts, ends, -1)
    ensures |r.regBases| == |P.regs| && |r.laneBases| == |P.lanes|
  {
  }

  lemma StartWalking(P: Skeleton, V: set<Loc>, entry: Loc)
    requires V <= P.All() && P.Has(entry)
    ensures Walking(P, V, {}, entry, entry)
  {
  }

  lemma WalkingHas(P: Skeleton, V: set<Loc>, W: set<Loc>, entry: Loc, curr: Loc)
    requires Walking(P, V, W, entry, curr)
    ensures P.Has(curr) && W <= P.All()
  {
  }

  lemma CycleIsClosed(P: Skeleton, V: set<Loc>, W: set<Loc>, entry: Loc)
    requires Walking(P, V, W, entry, entry) && entry in W && forall v :: v in V ==> P.Next(v) in V
    ensures V + W <= P.All() && forall v :: v in V + W ==> P.Next(v) in V + W
  {
  }

  // ---------------------------------------------------------------- the whole factorization

  /** A full record is a factorization. */
  lemma RecordIsFactorization(P: Skeleton, r: Record, V: set<Loc>, starts: seq<nat>, ends: seq<nat>)
    requires P.IsPermutation() && Recorded(P, r, V, starts, ends, -1) && V == P.All()
    ensures IsFactorization(P, r.regBases, r.laneBases, r.mixed)
  {
    MixedDisjoint(P, r, V, starts, ends);
    RegistersPermuted(P, r, V, starts, ends);
    LanesPermuted(P, r, V, starts, ends);
    MixedCount(P, r, V, starts, ends);
    hide Recorded;
    forall x | P.Has(x)
      ensures TransposeAll(r.mixed, Within(r.regBases, r.laneBases, x)) == P.Next(x)
    {
      FactoredAt(P, r, V, starts, ends, x);
    }
  }

  lemma MixedDisjoint(P: Skeleton, r: Record, V: set<Loc>, starts: seq<nat>, ends: seq<nat>)
    requires P.IsPermutation() && Recorded(P, r, V, starts, ends, -1)
    ensures PairwiseDisjoint(r.mixed)
    ensures forall k :: 0 <= k < |r.mixed| ==> r.mixed[k].0 < |P.regs| && r.mixed[k].1 < |P.lanes|
  {
    forall j, k | 0 <= j < k < |r.mixed|
      ensures r.mixed[j].0 != r.mixed[k].0 && r.mixed[j].1 != r.mixed[k].1
    {
      assert Explains(P, r, V, starts, ends, j) && Explains(P, r, V, starts, ends, k);
      assert P.Next(Reg(starts[j])) != P.Next(Reg(starts[k]));
      assert P.Next(Lane(ends[j])) != P.Next(Lane(ends[k]));
    }
    forall k | 0 <= k < |r.mixed|
      ensures r.mixed[k].0 < |P.regs| && r.mixed[k].1 < |P.lanes|
    {
      assert Explains(P, r, V, starts, ends, k);
      assert P.Has(P.Next(Reg(starts[k]))) && P.Has(P.Next(Lane(ends[k])));
    }
  }

  /** Where the register part of the factorization sends register i, in terms of P. */
  lemma RegisterValue(P: Skeleton, r: Record, V: set<Loc>, starts: seq<nat>, ends: seq<nat>, i: nat) returns (from: Loc)
    requires P.IsPermutation() && Recorded(P, r, V, starts, ends, -1) && V == P.All() && i < |P.regs|
    ensures P.Has(from) && 0 <= r.regBases[i] && P.Next(from) == Reg(r.regBases[i])
    ensures if P.regs[i].Reg? then from == Reg(i)
            else exists k :: 0 <= k < |starts| && starts[k] == i && from == Lane(ends[k])
  {
    assert Reg(i) in V;
    if P.regs[i].Reg? {
      from := Reg(i);
    } else {
      var k :| 0 <= k < |starts| && starts[k] == i;
      assert Explains(P, r, V, starts, ends, k);
      from := Lane(ends[k]);
    }
  }

  lemma RegistersPermuted(P: Skeleton, r: Record, V: set<Loc>, starts: seq<nat>, ends: seq<nat>)
    requires P.IsPermutation() && Recorded(P, r, V, starts, ends, -1) && V == P.All()
    ensures IsPermutationOf(r.regBases, |P.regs|)
  {
    forall i | 0 <= i < |P.regs|
      ensures 0 <= r.regBases[i] < |P.regs|
    {
      var x := RegisterValue(P, r, V, starts, ends, i);
      assert P.Has(P.Next(x));
    }
    forall i, j | 0 <= i < j < |P.regs|
      ensures r.regBases[i] != r.regBases[j]
    {
      var x := RegisterValue(P, r, V, starts, ends, i);
      var y := RegisterValue(P, r, V, starts, ends, j);
      assert x != y;
    }
  }

  lemma LaneValue(P: Skeleton, r: Record, V: set<Loc>, starts: seq<nat>, ends: seq<nat>, i: nat) returns (from: Loc)
    requires P.IsPermutation() && Recorded(P, r, V, starts, ends, -1) && V == P.All() && i < |P.lanes|
    ensures P.Has(from) && 0 <= r.laneBases[i] && P.Next(from) == Lane(r.laneBases[i])
    ensures if P.lanes[i].Lane? then from == Lane(i)
            else exists k :: 0 <= k < |ends| && ends[k] == i && from == Reg(starts[k])
  {
    assert Lane(i) in V;
    if P.lanes[i].Lane? {
      from := Lane(i);
    } else {
      var k :| 0 <= k < |ends| && ends[k] == i;
      assert Explains(P, r, V, starts, ends, k);
      from := Reg(starts[k]);
    }
  }

  lemma LanesPermuted(P: Skeleton, r: Record, V: set<Loc>, starts: seq<nat>, ends: seq<nat>)
    requires P.IsPermutation() && Recorded(P, r, V, starts, ends, -1) && V == P.All()
    ensures IsPermutationOf(r.laneBases, |P.lanes|)
  {
    forall i | 0 <= i < |P.lanes|
      ensures 0 <= r.laneBases[i] < |P.lanes|
    {
      var x := LaneValue(P, r, V, starts, ends, i);
      assert P.Has(P.Next(x));
    }
    forall i, j | 0 <= i < j < |P.lanes|
      ensures r.laneBases[i] != r.laneBases[j]
    {
      var x := LaneValue(P, r, V, starts, ends, i);
      var y := LaneValue(P, r, V, starts, ends, j);
      assert x != y;
    }
  }

  lemma MixedCount(P: Skeleton, r: Record, V: set<Loc>, starts: seq<nat>, ends: seq<nat>)
    requires Recorded(P, r, V, starts, ends, -1) && V == P.All()
    ensures |r.mixed| == |P.Crossing()|
  {
    NoDupSize(starts);
    forall i: nat
      ensures i in starts <==> i in P.Crossing()
    {
      if i in starts {
        var k :| 0 <= k < |starts| && starts[k] == i;
        assert Explains(P, r, V, starts, ends, k);
      }
      if i in P.Crossing() {
        assert Reg(i) in V;
      }
    }
    assert Elems(starts) == P.Crossing();
  }

  lemma FactoredAt(P: Skeleton, r: Record, V: set<Loc>, starts: seq<nat>, ends: seq<nat>, x: Loc)
    requires P.IsPermutation() && Recorded(P, r, V, starts, ends, -1) && V == P.All() && P.Has(x)
    requires PairwiseDisjoint(r.mixed)
    requires IsPermutationOf(r.regBases, |P.regs|) && IsPermutationOf(r.laneBases, |P.lanes|)
    ensures TransposeAll(r.mixed, Within(r.regBases, r.laneBases, x)) == P.Next(x)
  {
    var y := Within(r.regBases, r.laneBases, x);
    TransposeAllSwaps(r.mixed, y);
    if x.Reg? == P.Next(x).Reg? {
      assert x in V && y == P.Next(x);
      NotMentioned(P, r, V, starts, ends, x);
    } else if x.Reg? {
      var from := RegisterValue(P, r, V, starts, ends, x.idx);
      var k :| 0 <= k < |starts| && starts[k] == x.idx && from == Lane(ends[k]);
      assert Explains(P, r, V, starts, ends, k);
    } else {
      var from := LaneValue(P, r, V, starts, ends, x.idx);
      var k :| 0 <= k < |ends| && ends[k] == x.idx && from == Reg(starts[k]);
      assert Explains(P, r, V, starts, ends, k);
    }
  }

  lemma NotMentioned(P: Skeleton, r: Record, V: set<Loc>, starts: seq<nat>, ends: seq<nat>, x: Loc)
    requires P.IsPermutation() && Recorded(P, r, V, starts, ends, -1) && P.Has(x) && x.Reg? == P.Next(x).Reg?
    ensures !Mentions(r.mixed, P.Next(x))
  {
    forall k | 0 <= k < |r.mixed|
      ensures P.Next(x) != Reg(r.mixed[k].0) && P.Next(x) != Lane(r.mixed[k].1)
    {
      assert Explains(P, r, V, starts, ends, k);
      assert P.Next(Reg(starts[k])) == Lane(r.mixed[k].1) && P.Next(Lane(ends[k])) == Reg(r.mixed[k].0);
    }
  }

  /** Walks every cycle, registers first. */
  method FactorPermutation(P: Skeleton) returns (pReg: seq<int>, pLane: seq<int>, mixed: seq<(nat, nat)>)
    requires P.IsPermutation()
    ensures IsFactorization(P, pReg, pLane, mixed)
  {
    hide Recorded, Skeleton.IsPermutation, IsFactorization;
    var nRegBases, nLaneBases := |P.regs|, |P.lanes|;
    var r := Record(seq(nRegBases, _ => -1), seq(nLaneBases, _ => -1), []);
    var visited: set<Loc> := {};
    ghost var starts: seq<nat>, ends: seq<nat> := [], [];
    NothingRecorded(P, r);
    for dim := 0 to 2
      invariant visited <= P.All() && (forall v :: v in visited ==> P.Next(v) in visited)
      invariant Recorded(P, r, visited, starts, ends, -1)
      invariant dim >= 1 ==> forall i :: 0 <= i < nRegBases ==> Reg(i) in visited
      invariant dim == 2 ==> forall i :: 0 <= i < nLaneBases ==> Lane(i) in visited
    {
      var inDimSize := if dim == 0 then nRegBases else nLaneBases;
      for i := 0 to inDimSize
        invariant visited <= P.All() && (forall v :: v in visited ==> P.Next(v) in visited)
        invariant Recorded(P, r, visited, starts, ends, -1)
        invariant dim == 1 ==> forall j :: 0 <= j < nRegBases ==> Reg(j) in visited
        invariant forall j :: 0 <= j < i ==> (if dim == 0 then Reg(j) else Lane(j)) in visited
      {
        var entry := if dim == 0 then Reg(i) else Lane(i);
        if entry in visited {
          continue;
        }
        visited, r, starts, ends := WalkCycle(P, entry, visited, r, starts, ends);
      }
    }
    assert visited == P.All();
    RecordIsFactorization(P, r, visited, starts, ends);
    return r.regBases, r.laneBases, r.mixed;
  }

  lemma NothingRecorded(P: Skeleton, r: Record)
    requires |r.regBases| == |P.regs| && |r.laneBases| == |P.lanes| && r.mixed == []
    ensures Recorded(P, r, {}, [], [], -1)
  {
  }
}
