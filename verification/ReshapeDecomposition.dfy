/** Grouping the dimensions of two shapes of equal size into matching runs. */
module ReshapeDecomposition {
  import opened Basics

  ghost predicate Positive(s: seq<nat>) {
    forall k :: 0 <= k < |s| ==> s[k] > 0
  }

  function Prod(s: seq<nat>): nat {
    if s == [] then 1 else s[0] * Prod(s[1..])
  }

  lemma {:induction false} ProdPositive(s: seq<nat>)
    requires Positive(s)
    ensures Prod(s) > 0
  {
    if s != [] {
      ProdPositive(s[1..]);
      TimesMonotone(1, s[0], Prod(s[1..]));
    }
  }

  lemma {:induction false} ProdAppend(s: seq<nat>, x: nat)
    ensures Prod(s + [x]) == Prod(s) * x
  {
    if s == [] {
      assert [x][1..] == [];
    } else {
      assert (s + [x])[1..] == s[1..] + [x];
      ProdAppend(s[1..], x);
      TimesAssociative(s[0], Prod(s[1..]), x);
    }
  }

  lemma TimesAssociative(a: nat, b: nat, c: nat)
    ensures a * (b * c) == (a * b) * c
  {
  }

  lemma {:induction false} ProdConcat(s: seq<nat>, t: seq<nat>)
    ensures Prod(s + t) == Prod(s) * Prod(t)
  {
    if s == [] {
      assert s + t == t;
    } else {
      assert (s + t)[1..] == s[1..] + t;
      ProdConcat(s[1..], t);
      TimesAssociative(s[0], Prod(s[1..]), Prod(t));
    }
  }

  lemma {:induction false} UnitProd(s: seq<nat>)
    requires Positive(s)
    ensures Prod(s) == 1 <==> forall k :: 0 <= k < |s| ==> s[k] == 1
  {
    if s != [] {
      UnitProd(s[1..]);
      ProdPositive(s[1..]);
      UnitProduct(s[0], Prod(s[1..]));
      assert forall k :: 0 < k < |s| ==> s[k] == s[1..][k - 1];
    }
  }

  lemma UnitProduct(a: nat, b: nat)
    requires a > 0 && b > 0
    ensures a * b == 1 <==> a == 1 && b == 1
  {
    TimesMonotone(1, a, b);
    TimesMonotone(1, b, a);
  }

  // ---------------------------------------------------------------- sides of a group

  /** Whatever one side had before its last growth is less than the other side, or nothing. */
  ghost predicate Chased(u: seq<nat>, v: seq<nat>) {
    forall a :: 0 <= a <= |u| ==> Prod(u[..a]) == Prod(u) || Prod(u[..a]) < Prod(v) || Prod(u[..a]) == 1
  }

  /** Where the sides first meet, both are complete but for ones. */
  ghost predicate MeetAtEnd(u: seq<nat>, v: seq<nat>) {
    forall a, b :: 0 <= a <= |u| && 0 <= b <= |v| && Prod(u[..a]) == Prod(v[..b]) && Prod(u[..a]) > 1 ==>
      Prod(u[..a]) == Prod(u) && Prod(v[..b]) == Prod(v)
  }

  ghost predicate Grown(u: seq<nat>, v: seq<nat>) {
    Positive(u) && Positive(v) && Chased(u, v) && Chased(v, u) && MeetAtEnd(u, v)
  }

  lemma GrownBothWays(u: seq<nat>, v: seq<nat>)
    requires Grown(u, v)
    ensures Grown(v, u)
  {
    hide Prod, Chased, Positive;
    forall b, a | 0 <= b <= |v| && 0 <= a <= |u| && Prod(v[..b]) == Prod(u[..a]) && Prod(v[..b]) > 1
      ensures Prod(v[..b]) == Prod(v) && Prod(u[..a]) == Prod(u)
    {
      assert Prod(u[..a]) == Prod(v[..b]);
    }
  }

  /** The smaller side, an empty one, or any side by a one may grow. */
  lemma GrowSide(u: seq<nat>, v: seq<nat>, d: nat)
    requires Grown(u, v) && d > 0 && (Prod(u) < Prod(v) || Prod(u) == 1 || d == 1)
    ensures Grown(u + [d], v)
  {
    hide Prod, Chased, MeetAtEnd;
    GrowChased(u, v, d);
    GrowMeet(u, v, d);
  }

  lemma GrownFacts(u: seq<nat>, d: nat)
    requires Positive(u) && d > 0
    ensures Prod(u + [d]) >= Prod(u) > 0 && (d == 1 ==> Prod(u + [d]) == Prod(u))
    ensures (u + [d])[..|u| + 1] == u + [d] && u[..|u|] == u
    ensures forall a :: 0 <= a <= |u| ==> (u + [d])[..a] == u[..a]
  {
    hide Prod;
    ProdAppend(u, d);
    ProdPositive(u);
    TimesMonotone(1, d, Prod(u));
  }

  lemma GrowChased(u: seq<nat>, v: seq<nat>, d: nat)
    requires Positive(u) && Chased(u, v) && Chased(v, u)
    requires d > 0 && (Prod(u) < Prod(v) || Prod(u) == 1 || d == 1)
    ensures Chased(u + [d], v) && Chased(v, u + [d])
  {
    hide Prod, Positive, Chased;
    GrownFacts(u, d);
    GrowRunner(u, v, u + [d]);
    GrowTarget(v, u, u + [d]);
  }

  lemma GrowRunner(u: seq<nat>, v: seq<nat>, w: seq<nat>)
    requires Chased(u, v) && |w| == |u| + 1 && w[..|u|] == u
    requires Prod(u) < Prod(v) || Prod(u) == 1 || Prod(w) == Prod(u)
    ensures Chased(w, v)
  {
    hide Prod;
    forall a | 0 <= a <= |w|
      ensures Prod(w[..a]) == Prod(w) || Prod(w[..a]) < Prod(v) || Prod(w[..a]) == 1
    {
      if a == |w| {
        assert w[..a] == w;
      } else {
        assert w[..a] == u[..a];
      }
    }
  }

  lemma GrowTarget(v: seq<nat>, u: seq<nat>, w: seq<nat>)
    requires Chased(v, u) && Prod(w) >= Prod(u)
    ensures Chased(v, w)
  {
    hide Prod;
  }

  lemma GrowMeet(u: seq<nat>, v: seq<nat>, d: nat)
    requires Positive(u) && Chased(v, u) && MeetAtEnd(u, v)
    requires d > 0 && (Prod(u) < Prod(v) || Prod(u) == 1 || d == 1)
    ensures MeetAtEnd(u + [d], v)
  {
    hide Prod, Positive;
    GrownFacts(u, d);
    var w := u + [d];
    forall a, b | 0 <= a <= |w| && 0 <= b <= |v| && Prod(w[..a]) == Prod(v[..b]) && Prod(w[..a]) > 1
      ensures Prod(w[..a]) == Prod(w) && Prod(v[..b]) == Prod(v)
    {
      if a <= |u| {
        assert w[..a] == u[..a];
      }
    }
  }

  /** After a point where the sides meet there are only ones. */
  lemma OnesAfter(u: seq<nat>, v: seq<nat>, a: nat, b: nat)
    requires Grown(u, v) && a <= |u| && b <= |v| && Prod(u[..a]) == Prod(v[..b]) && Prod(u[..a]) > 1
    ensures forall k :: a <= k < |u| ==> u[k] == 1
    ensures forall k :: b <= k < |v| ==> v[k] == 1
  {
    hide Prod, Chased;
    OnesAtEnd(u, a);
    OnesAtEnd(v, b);
  }

  lemma OnesAtEnd(u: seq<nat>, a: nat)
    requires Positive(u) && a <= |u| && Prod(u[..a]) == Prod(u) && Prod(u) > 0
    ensures forall k :: a <= k < |u| ==> u[k] == 1
  {
    hide Prod;
    assert u == u[..a] + u[a..];
    ProdConcat(u[..a], u[a..]);
    SameFactor(Prod(u), Prod(u[a..]), 1);
    UnitProd(u[a..]);
    assert forall k :: a <= k < |u| ==> u[k] == u[a..][k - a];
  }

  // ---------------------------------------------------------------- groups

  /** The dimensions of a group, as indices into the two shapes. */
  type Group = (seq<nat>, seq<nat>)

  /** The sizes at the given indices. */
  function At(shape: seq<nat>, idx: seq<nat>): (r: seq<nat>)
    requires forall k :: 0 <= k < |idx| ==> idx[k] < |shape|
    ensures |r| == |idx|
  {
    seq(|idx|, k requires 0 <= k < |idx| => shape[idx[k]])
  }

  function FlatSrc(gs: seq<Group>): seq<nat> {
    if gs == [] then [] else FlatSrc(gs[..|gs| - 1]) + gs[|gs| - 1].0
  }

  function FlatDst(gs: seq<Group>): seq<nat> {
    if gs == [] then [] else FlatDst(gs[..|gs| - 1]) + gs[|gs| - 1].1
  }

  function FirstIndices(n: nat): seq<nat> {
    seq(n, k requires 0 <= k => k)
  }

  ghost predicate InRange(g: Group, src: seq<nat>, dst: seq<nat>) {
    && (forall k :: 0 <= k < |g.0| ==> g.0[k] < |src|)
    && forall k :: 0 <= k < |g.1| ==> g.1[k] < |dst|
  }

  /** The two sides of a group have the same number of elements. */
  ghost predicate Balanced(g: Group, src: seq<nat>, dst: seq<nat>) {
    InRange(g, src, dst) && Prod(At(src, g.0)) == Prod(At(dst, g.1))
  }

  /**
   * The group cannot be divided: where its sides have the same number of elements, other than one, only
   * ones follow.
   */
  ghost predicate Finest(g: Group, src: seq<nat>, dst: seq<nat>) {
    && InRange(g, src, dst)
    && forall a, b | 0 <= a <= |g.0| && 0 <= b <= |g.1| ::
         Prod(At(src, g.0)[..a]) == Prod(At(dst, g.1)[..b]) > 1 ==>
           (forall k :: a <= k < |g.0| ==> src[g.0[k]] == 1) && (forall k :: b <= k < |g.1| ==> dst[g.1[k]] == 1)
  }

  /** The group begins with a dimension larger than one on either side. */
  ghost predicate StartsLarge(g: Group, src: seq<nat>, dst: seq<nat>) {
    InRange(g, src, dst) && g.0 != [] && g.1 != [] && src[g.0[0]] > 1 && dst[g.1[0]] > 1
  }

  lemma GrownIsFinest(g: Group, src: seq<nat>, dst: seq<nat>)
    requires InRange(g, src, dst) && Grown(At(src, g.0), At(dst, g.1))
    ensures Finest(g, src, dst)
  {
    hide Prod, Grown;
    var u, v := At(src, g.0), At(dst, g.1);
    forall a, b | 0 <= a <= |g.0| && 0 <= b <= |g.1| && Prod(u[..a]) == Prod(v[..b]) && Prod(u[..a]) > 1
      ensures (forall k :: a <= k < |g.0| ==> src[g.0[k]] == 1) && (forall k :: b <= k < |g.1| ==> dst[g.1[k]] == 1)
    {
      OnesAfter(u, v, a, b);
      assert forall k :: 0 <= k < |g.0| ==> u[k] == src[g.0[k]];
      assert forall k :: 0 <= k < |g.1| ==> v[k] == dst[g.1[k]];
    }
  }

  /**
   * The groups run through all dimensions of both shapes in order.  Each is balanced and cannot be divided,
   * and each after the first begins with a dimension larger than one on either side.
   */
  ghost predicate IsDecomposition(gs: seq<Group>, src: seq<nat>, dst: seq<nat>) {
    && FlatSrc(gs) == FirstIndices(|src|) && FlatDst(gs) == FirstIndices(|dst|)
    && (forall i :: 0 <= i < |gs| ==> Balanced(gs[i], src, dst) && Finest(gs[i], src, dst))
    && forall i :: 0 < i < |gs| ==> StartsLarge(gs[i], src, dst)
  }

  /** The groups built so far; the last, still open, holds srcN and dstN elements. */
  ghost predicate Building(gs: seq<Group>, src: seq<nat>, dst: seq<nat>, i: nat, j: nat, srcN: nat, dstN: nat) {
    && i <= |src| && j <= |dst| && gs != []
    && FlatSrc(gs) == FirstIndices(i) && FlatDst(gs) == FirstIndices(j)
    && (forall k :: 0 <= k < |gs| - 1 ==> Balanced(gs[k], src, dst) && Finest(gs[k], src, dst))
    && (forall k :: 0 < k < |gs| - 1 ==> StartsLarge(gs[k], src, dst))
    && OpenGroupOf(gs[|gs| - 1], src, dst, srcN, dstN)
    && (|gs| > 1 ==> WillStartLarge(gs[|gs| - 1], src, dst, i, j))
  }

  ghost predicate OpenGroupOf(g: Group, src: seq<nat>, dst: seq<nat>, srcN: nat, dstN: nat) {
    && InRange(g, src, dst) && Prod(At(src, g.0)) == srcN && Prod(At(dst, g.1)) == dstN
    && Grown(At(src, g.0), At(dst, g.1))
  }

  /** The first dimension on either side is larger than one, or will be. */
  ghost predicate WillStartLarge(g: Group, src: seq<nat>, dst: seq<nat>, i: nat, j: nat) {
    && InRange(g, src, dst)
    && (if g.0 == [] then i < |src| && src[i] > 1 else src[g.0[0]] > 1)
    && (if g.1 == [] then j < |dst| && dst[j] > 1 else dst[g.1[0]] > 1)
  }

  lemma TakeSrc(gs: seq<Group>, src: seq<nat>, dst: seq<nat>, i: nat, j: nat, srcN: nat, dstN: nat)
    requires Building(gs, src, dst, i, j, srcN, dstN) && i < |src| && src[i] > 0
    requires srcN < dstN || srcN == 1 || src[i] == 1
    ensures var n := |gs| - 1;
      Building(gs[n := (gs[n].0 + [i], gs[n].1)], src, dst, i + 1, j, srcN * src[i], dstN)
  {
    hide Grown, Prod, Finest, Balanced;
    var n := |gs| - 1;
    var g := gs[n];
    var gs' := gs[n := (g.0 + [i], g.1)];
    assert gs'[..n] == gs[..n];
    assert At(src, g.0 + [i]) == At(src, g.0) + [src[i]];
    ProdAppend(At(src, g.0), src[i]);
    GrowSide(At(src, g.0), At(dst, g.1), src[i]);
    assert FirstIndices(i + 1) == FirstIndices(i) + [i];
  }

  lemma TakeDst(gs: seq<Group>, src: seq<nat>, dst: seq<nat>, i: nat, j: nat, srcN: nat, dstN: nat)
    requires Building(gs, src, dst, i, j, srcN, dstN) && j < |dst| && dst[j] > 0
    requires dstN < srcN || dst[j] == 1
    ensures var n := |gs| - 1;
      Building(gs[n := (gs[n].0, gs[n].1 + [j])], src, dst, i, j + 1, srcN, dstN * dst[j])
  {
    hide Grown, Prod, Finest, Balanced;
    var n := |gs| - 1;
    var g := gs[n];
    var gs' := gs[n := (g.0, g.1 + [j])];
    assert gs'[..n] == gs[..n];
    assert At(dst, g.1 + [j]) == At(dst, g.1) + [dst[j]];
    ProdAppend(At(dst, g.1), dst[j]);
    GrownBothWays(At(src, g.0), At(dst, g.1));
    GrowSide(At(dst, g.1), At(src, g.0), dst[j]);
    GrownBothWays(At(dst, g.1) + [dst[j]], At(src, g.0));
    assert FirstIndices(j + 1) == FirstIndices(j) + [j];
  }

  lemma OpenGroup(gs: seq<Group>, src: seq<nat>, dst: seq<nat>, i: nat, j: nat, n: nat)
    requires Building(gs, src, dst, i, j, n, n) && i < |src| && j < |dst| && src[i] > 1 && dst[j] > 1 && n != 1
    ensures Building(gs + [([], [])], src, dst, i, j, 1, 1)
  {
    hide Grown, Prod, Finest, Balanced, StartsLarge, FirstIndices;
    CloseGroup(gs, src, dst, i, j, n);
    NothingGrown();
    var gs' := gs + [([], [])];
    assert gs'[..|gs|] == gs;
    assert FlatSrc(gs') == FlatSrc(gs) && FlatDst(gs') == FlatDst(gs);
    assert At(src, []) == [] && At(dst, []) == [];
  }

  /** With equal sides and both sides begun, the open group is as it should be. */
  lemma CloseGroup(gs: seq<Group>, src: seq<nat>, dst: seq<nat>, i: nat, j: nat, n: nat)
    requires Building(gs, src, dst, i, j, n, n) && i <= |src| && j <= |dst|
    requires (i < |src| && j < |dst| && n != 1) || (i == |src| && j == |dst|)
    ensures var g := gs[|gs| - 1];
      Balanced(g, src, dst) && Finest(g, src, dst) && (|gs| > 1 ==> StartsLarge(g, src, dst))
  {
    hide Grown, Prod, Finest, FirstIndices, FlatSrc, FlatDst;
    var g := gs[|gs| - 1];
    GrownIsFinest(g, src, dst);
    if n != 1 {
      NothingGrown();
      assert At(src, []) == [] && At(dst, []) == [];
      assert g.0 != [] && g.1 != [];
    }
  }

  lemma NothingGrown()
    ensures Grown([], []) && Prod([]) == 1
  {
  }

  /** What is still to be matched: both sides have the same number of elements in all. */
  ghost predicate Remaining(src: seq<nat>, dst: seq<nat>, i: nat, j: nat, srcN: nat, dstN: nat) {
    && i <= |src| && j <= |dst| && srcN > 0 && dstN > 0
    && srcN * Prod(src[i..]) == dstN * Prod(dst[j..])
  }

  lemma RemainingSrc(src: seq<nat>, dst: seq<nat>, i: nat, j: nat, srcN: nat, dstN: nat)
    requires Positive(src) && Remaining(src, dst, i, j, srcN, dstN) && i < |src|
    ensures Remaining(src, dst, i + 1, j, srcN * src[i], dstN)
  {
  }

  lemma RemainingDst(src: seq<nat>, dst: seq<nat>, i: nat, j: nat, srcN: nat, dstN: nat)
    requires Positive(dst) && Remaining(src, dst, i, j, srcN, dstN) && j < |dst|
    ensures Remaining(src, dst, i, j + 1, srcN, dstN * dst[j])
  {
  }

  /**
   * With nothing left on one side, the open group is at least as large there; with equal groups, only ones
   * are left on the other.
   */
  lemma OneSideDone(src: seq<nat>, dst: seq<nat>, i: nat, j: nat, srcN: nat, dstN: nat)
    requires Positive(src) && Positive(dst) && Remaining(src, dst, i, j, srcN, dstN)
    ensures i == |src| ==> srcN >= dstN
    ensures j == |dst| ==> dstN >= srcN
    ensures i == |src| && srcN == dstN && j < |dst| ==> dst[j] == 1
    ensures j == |dst| && srcN == dstN && i < |src| ==> src[i] == 1
    ensures i == |src| && j == |dst| ==> srcN == dstN
  {
  }

  /**
   * Splits the dimensions of two shapes into groups of equal size; the assertions on the indices always hold.
   * Fails, where the original asserts, on an empty source with a destination that has (unit) dimensions.
   */
  method GetReshapeDecomposition(srcShape: seq<nat>, dstShape: seq<nat>) returns (r: Option<seq<Group>>)
    requires Positive(srcShape) && Positive(dstShape) && Prod(srcShape) == Prod(dstShape)
    ensures r.None? <==> srcShape == [] && dstShape != []
    ensures r.Some? ==> IsDecomposition(r.value, srcShape, dstShape)
  {
    hide Building, Remaining;
    var ret: seq<Group> := [];
    if srcShape == [] {
      return if dstShape == [] then Some(ret) else None;
    }
    ret := ret + [([], [])];
    assert ret == [([], [])];
    var srcIdx, dstIdx := 0, 0;
    var srcNElems, dstNElems := 1, 1;
    Start(srcShape, dstShape);
    while srcIdx < |srcShape| || dstIdx < |dstShape|
      invariant srcIdx <= |srcShape| && dstIdx <= |dstShape| && ret != []
      invariant Building(ret, srcShape, dstShape, srcIdx, dstIdx, srcNElems, dstNElems)
      invariant Remaining(srcShape, dstShape, srcIdx, dstIdx, srcNElems, dstNElems)
      decreases |srcShape| - srcIdx + |dstShape| - dstIdx, srcNElems != 1
    {
      OneSideDone(srcShape, dstShape, srcIdx, dstIdx, srcNElems, dstNElems);
      var n := |ret| - 1;
      if srcNElems < dstNElems || (srcIdx < |srcShape| && srcNElems == 1)
        || (srcIdx < |srcShape| && srcShape[srcIdx] == 1) {
        assert srcIdx < |srcShape|;
        TakeSrc(ret, srcShape, dstShape, srcIdx, dstIdx, srcNElems, dstNElems);
        RemainingSrc(srcShape, dstShape, srcIdx, dstIdx, srcNElems, dstNElems);
        srcNElems := srcNElems * srcShape[srcIdx];
        ret := ret[n := (ret[n].0 + [srcIdx], ret[n].1)];
        srcIdx := srcIdx + 1;
      } else if dstNElems < srcNElems || (dstIdx < |dstShape| && dstShape[dstIdx] == 1) {
        assert dstIdx < |dstShape|;
        TakeDst(ret, srcShape, dstShape, srcIdx, dstIdx, srcNElems, dstNElems);
        RemainingDst(srcShape, dstShape, srcIdx, dstIdx, srcNElems, dstNElems);
        dstNElems := dstNElems * dstShape[dstIdx];
        ret := ret[n := (ret[n].0, ret[n].1 + [dstIdx])];
        dstIdx := dstIdx + 1;
      } else {
        OpenGroup(ret, srcShape, dstShape, srcIdx, dstIdx, srcNElems);
        RemainingEven(srcShape, dstShape, srcIdx, dstIdx, srcNElems);
        ret := ret + [([], [])];
        srcNElems, dstNElems := 1, 1;
      }
    }
    OneSideDone(srcShape, dstShape, srcIdx, dstIdx, srcNElems, dstNElems);
    Finish(ret, srcShape, dstShape, srcNElems);
    return Some(ret);
  }

  lemma Start(src: seq<nat>, dst: seq<nat>)
    requires Prod(src) == Prod(dst)
    ensures Building([([], [])], src, dst, 0, 0, 1, 1) && Remaining(src, dst, 0, 0, 1, 1)
  {
  }

  lemma RemainingEven(src: seq<nat>, dst: seq<nat>, i: nat, j: nat, n: nat)
    requires Remaining(src, dst, i, j, n, n)
    ensures Remaining(src, dst, i, j, 1, 1)
  {
    SameFactor(n, Prod(src[i..]), Prod(dst[j..]));
  }

  lemma SameFactor(n: nat, a: nat, b: nat)
    requires n > 0 && n * a == n * b
    ensures a == b
  {
  }

  lemma Finish(gs: seq<Group>, src: seq<nat>, dst: seq<nat>, n: nat)
    requires Building(gs, src, dst, |src|, |dst|, n, n)
    ensures IsDecomposition(gs, src, dst)
  {
    hide Grown, Prod, Finest, Balanced, StartsLarge, FirstIndices, FlatSrc, FlatDst;
    CloseGroup(gs, src, dst, |src|, |dst|, n);
  }
}
