/** Solving A . X = B for layouts: least squares and the identity shortcut. */
module LayoutInversion {
  import opened Basics
  import opened GF2
  import opened LinearSolve
  import opened Layouts
  import opened LayoutMatrix
  import opened LayoutProducts

  /** The basis vector of input bit c is a combination of those of earlier input bits. */
  ghost predicate IsFreeBit(L: Layout, c: Bit) {
    exists k :: 0 <= k < |InList(L)| && InList(L)[k] == c && IsFree(Columns(L, InList(L), OutList(L)), k)
  }

  // ---------------------------------------------------------------- least squares

  /** v is an input of A for the output w that uses no free bit of A. */
  ghost predicate IsLeastInput(A: Layout, w: set<Bit>, v: set<Bit>) {
    v <= A.InBits() && A.Image(v) == w && forall c :: c in v ==> !IsFreeBit(A, c)
  }

  lemma LeastFlat(A: Layout, w: set<Bit>, x: set<nat>)
    requires A.Valid() && w <= A.OutBits()
    requires IsLeastSolution(Columns(A, InList(A), OutList(A)), Flat(w, OutList(A)), x)
    ensures IsLeastInput(A, w, Unflat(x, InList(A)))
  {
    hide Layout.Valid, Combo, Layout.Image, Flat, InList, OutList, IsFree;
    InListLists(A);
    OutListLists(A);
    var ins, outs := InList(A), OutList(A);
    var v := Unflat(x, ins);
    FlatUnflat(x, ins);
    ComboIsImage(A, ins, outs, v);
    FlatInjective(A.Image(v), w, outs);
    forall c | c in v
      ensures !IsFreeBit(A, c)
    {
      var k :| k in x && k < |ins| && ins[k] == c;
    }
  }

  /** Columns of X with A . X = B, free bits of A left zero; fails when B has a vector outside the image of A. */
  method LayoutLstsq(A: Layout, B: Layout) returns (r: Option<Layout>)
    requires A.Valid() && B.Valid() && B.OutBits() <= A.OutBits()
    ensures r.Some? <==> forall c :: B.HasIn(c) ==> InImage(A, B.Basis(c))
    ensures r.Some? ==> var X := r.value;
      && X.Valid() && X.inDims == B.inDims && X.outDims == A.inDims
      && (forall d :: X.InSize(d) == B.InSize(d) && X.OutSize(d) == A.InSize(d))
      && forall c :: B.HasIn(c) ==> IsLeastInput(A, B.Basis(c), X.Basis(c))
  {
    hide Layout.Valid, Flat, InList, OutList, IsLeastSolution, InSpan, IsLeastInput, InImage;
    var ins, outs, bIns := InList(A), OutList(A), InList(B);
    ColumnsBelow(A, ins, outs);
    ColumnsBelow(B, bIns, outs);
    var sol := Lstsq(Columns(A, ins, outs), Columns(B, bIns, outs), |outs|);
    SolvableColumns(A, B);
    if sol.None? {
      return None;
    }
    var X := Reshape(A, B, sol.value);
    ReshapeSolves(A, B, sol.value, X);
    return Some(X);
  }

  lemma SolvableColumns(A: Layout, B: Layout)
    requires A.Valid() && B.Valid() && B.OutBits() <= A.OutBits()
    ensures var cols := Columns(B, InList(B), OutList(A));
      (forall j :: 0 <= j < |cols| ==> InSpan(cols[j], Columns(A, InList(A), OutList(A)))) <==>
      forall c :: B.HasIn(c) ==> InImage(A, B.Basis(c))
  {
    hide Flat, InList, OutList, InSpan, InImage;
    InListLists(B);
    var bIns := InList(B);
    forall c | B.HasIn(c)
      ensures InSpan(Flat(B.Basis(c), OutList(A)), Columns(A, InList(A), OutList(A))) <==> InImage(A, B.Basis(c))
    {
      SolvableFlat(A, B.Basis(c));
    }
    var cols, aCols := Columns(B, bIns, OutList(A)), Columns(A, InList(A), OutList(A));
    if forall j :: 0 <= j < |cols| ==> InSpan(cols[j], aCols) {
      forall c | B.HasIn(c)
        ensures InImage(A, B.Basis(c))
      {
        assert c in bIns;
        var j :| 0 <= j < |bIns| && bIns[j] == c;
        assert InSpan(cols[j], aCols);
      }
    }
    if forall c :: B.HasIn(c) ==> InImage(A, B.Basis(c)) {
      forall j | 0 <= j < |cols|
        ensures InSpan(cols[j], aCols)
      {
        assert bIns[j] in bIns && B.HasIn(bIns[j]);
      }
    }
  }

  /** The basis vectors bs of input dimension m are the flat columns from the first place of that dimension on. */
  ghost predicate TakenFrom(bs: seq<set<Bit>>, B: Layout, sol: seq<set<nat>>, ins: seq<Bit>, m: nat)
    requires m < |B.inDims|
  {
    var first := |BitList(B.inDims[..m], InSizes(B))|;
    && first + |bs| <= |sol| && |bs| == B.InSize(B.inDims[m])
    && forall j :: 0 <= j < |bs| ==> bs[j] == Unflat(sol[first + j], ins)
  }

  /** Splits the flat columns by input dimension, and each of them by the dimensions of A's input. */
  method Reshape(A: Layout, B: Layout, sol: seq<set<nat>>) returns (X: Layout)
    requires B.Valid() && |sol| == |InList(B)|
    ensures IsReshaped(X, A, B, sol)
  {
    hide TakenFrom, InSizes, BitList, Layout.InSize, InList;
    StartOfList(B);
    var newBases: map<Dim, seq<set<Bit>>> := map[];
    var i := 0;
    for k := 0 to |B.inDims|
      invariant i == |BitList(B.inDims[..k], InSizes(B))|
      invariant forall d :: d in newBases <==> d in B.inDims[..k]
      invariant forall m :: 0 <= m < k ==> TakenFrom(newBases[B.inDims[m]], B, sol, InList(A), m)
    {
      var newInDimBases := TakeBases(B, sol, InList(A), k, i);
      i := i + |newInDimBases|;
      newBases := newBases[B.inDims[k] := newInDimBases];
      BitListPrefix(B, k);
    }
    X := Layout(B.inDims, newBases, A.inDims, InSizes(A));
  }

  lemma StartOfList(B: Layout)
    ensures |BitList(B.inDims[..0], InSizes(B))| == 0
  {
  }

  method TakeBases(B: Layout, sol: seq<set<nat>>, ins: seq<Bit>, k: nat, i: nat) returns (bs: seq<set<Bit>>)
    requires B.Valid() && |sol| == |InList(B)| && k < |B.inDims| && i == |BitList(B.inDims[..k], InSizes(B))|
    ensures TakenFrom(bs, B, sol, ins, k) && |bs| == B.InSize(B.inDims[k])
  {
    hide Unflat;
    bs := [];
    BitListPrefixLength(B, k);
    for j := 0 to B.InSize(B.inDims[k])
      invariant |bs| == j && i + j <= |sol|
      invariant forall l :: 0 <= l < j ==> bs[l] == Unflat(sol[i + l], ins)
    {
      BitListAt(B.inDims, InSizes(B), k, j);
      bs := bs + [Unflat(sol[i + j], ins)];
    }
  }

  lemma BitListPrefix(B: Layout, k: nat)
    requires B.Valid() && k < |B.inDims|
    ensures |BitList(B.inDims[..k + 1], InSizes(B))| == |BitList(B.inDims[..k], InSizes(B))| + B.InSize(B.inDims[k])
  {
    assert B.inDims[..k + 1][..k] == B.inDims[..k];
  }

  lemma {:induction false} BitListPrefixLength(B: Layout, k: nat)
    requires B.Valid() && k <= |B.inDims|
    ensures |BitList(B.inDims[..k], InSizes(B))| <= |InList(B)|
    decreases |B.inDims| - k
  {
    if k < |B.inDims| {
      BitListPrefix(B, k);
      BitListPrefixLength(B, k + 1);
    } else {
      assert B.inDims[..k] == B.inDims;
    }
  }

  lemma PlaceInList(B: Layout, c: Bit) returns (m: nat, k: nat)
    requires B.Valid() && B.HasIn(c)
    ensures m < |B.inDims| && B.inDims[m] == c.dim
    ensures k == |BitList(B.inDims[..m], InSizes(B))| + c.pos && k < |InList(B)| && InList(B)[k] == c
  {
    m := PositionOf(B.inDims, c.dim);
    BitListAt(B.inDims, InSizes(B), m, c.pos);
    k := |BitList(B.inDims[..m], InSizes(B))| + c.pos;
  }

  ghost predicate IsReshaped(X: Layout, A: Layout, B: Layout, sol: seq<set<nat>>) {
    && X.inDims == B.inDims && X.outDims == A.inDims && X.outSizes == InSizes(A)
    && (forall d :: d in X.bases <==> d in B.inDims)
    && forall m :: 0 <= m < |B.inDims| ==> TakenFrom(X.bases[B.inDims[m]], B, sol, InList(A), m)
  }

  lemma ReshapedSizes(A: Layout, B: Layout, sol: seq<set<nat>>, X: Layout)
    requires B.Valid() && IsReshaped(X, A, B, sol)
    ensures forall d :: X.InSize(d) == B.InSize(d) && X.OutSize(d) == A.InSize(d)
  {
  }

  lemma ReshapedBasis(A: Layout, B: Layout, sol: seq<set<nat>>, X: Layout, c: Bit) returns (k: nat)
    requires B.Valid() && |sol| == |InList(B)| && IsReshaped(X, A, B, sol) && B.HasIn(c)
    ensures k < |sol| && InList(B)[k] == c && X.Basis(c) == Unflat(sol[k], InList(A))
  {
    hide InList, Unflat, Layout.Valid, BitList, InSizes;
    var m;
    m, k := PlaceInList(B, c);
  }

  lemma ReshapeSolves(A: Layout, B: Layout, sol: seq<set<nat>>, X: Layout)
    requires A.Valid() && B.Valid() && B.OutBits() <= A.OutBits() && |sol| == |InList(B)|
    requires forall k :: 0 <= k < |sol| ==> IsLeastSolution(Columns(A, InList(A), OutList(A)),
                                                           Columns(B, InList(B), OutList(A))[k], sol[k])
    requires IsReshaped(X, A, B, sol)
    ensures X.Valid()
    ensures forall d :: X.InSize(d) == B.InSize(d) && X.OutSize(d) == A.InSize(d)
    ensures forall c :: B.HasIn(c) ==> IsLeastInput(A, B.Basis(c), X.Basis(c))
  {
    hide IsLeastSolution, IsLeastInput, IsReshaped, Unflat, Flat, InList, OutList, Layout.Basis, Layout.Valid;
    ReshapedSizes(A, B, sol, X);
    forall c | B.HasIn(c)
      ensures IsLeastInput(A, B.Basis(c), X.Basis(c))
    {
      var k := ReshapedBasis(A, B, sol, X, c);
      BasisInRange(B, c);
      LeastFlat(A, B.Basis(c), sol[k]);
    }
    ReshapedValid(A, B, sol, X);
  }

  lemma BasisInRange(B: Layout, c: Bit)
    requires B.Valid()
    ensures B.Basis(c) <= B.OutBits()
  {
  }

  lemma ReshapedValid(A: Layout, B: Layout, sol: seq<set<nat>>, X: Layout)
    requires A.Valid() && B.Valid() && IsReshaped(X, A, B, sol)
    requires forall d :: X.InSize(d) == B.InSize(d) && X.OutSize(d) == A.InSize(d)
    requires forall c :: B.HasIn(c) ==> IsLeastInput(A, B.Basis(c), X.Basis(c))
    ensures X.Valid()
  {
    hide IsFreeBit, Layout.Image, InList, TakenFrom;
    forall c, b | X.HasIn(c) && b in X.Basis(c)
      ensures X.HasOut(b)
    {
      assert B.HasIn(c) && b in A.InBits();
    }
  }

  // ---------------------------------------------------------------- the identity shortcut

  /** The input dimensions on which A and B have the same vectors and the same output sizes. */
  predicate IsIdentityDim(A: Layout, B: Layout, d: Dim) {
    && d in A.bases && d in B.bases && A.bases[d] == B.bases[d]
    && forall o :: o in A.outDims + B.outDims ==> A.OutSize(o) == B.OutSize(o)
  }

  /** The layout restricted to some of its input dimensions. */
  function SubLayout(L: Layout, dims: seq<Dim>): (r: Layout) {
    Layout(dims, map d | d in L.bases && d in dims :: L.bases[d], L.outDims, L.outSizes)
  }

  lemma SubLayoutValid(L: Layout, dims: seq<Dim>)
    requires L.Valid() && NoDup(dims) && forall d :: d in dims ==> d in L.inDims
    ensures SubLayout(L, dims).Valid()
    ensures forall d :: SubLayout(L, dims).InSize(d) == if d in dims then L.InSize(d) else 0
    ensures forall c :: SubLayout(L, dims).Basis(c) == if c.dim in dims then L.Basis(c) else {}
    ensures forall d :: SubLayout(L, dims).OutSize(d) == L.OutSize(d)
  {
    var r := SubLayout(L, dims);
    forall c, b | r.HasIn(c) && b in r.Basis(c)
      ensures r.HasOut(b)
    {
      assert L.HasIn(c) && b in L.Basis(c) && L.HasOut(b);
    }
  }

  /** Inputs in the kept dimensions give the same output. */
  lemma SubLayoutImage(L: Layout, dims: seq<Dim>, x: set<Bit>)
    requires L.Valid() && NoDup(dims) && forall d :: d in dims ==> d in L.inDims
    requires x <= SubLayout(L, dims).InBits()
    ensures SubLayout(L, dims).Image(x) == L.Image(x)
  {
    SubLayoutValid(L, dims);
    var r := SubLayout(L, dims);
    forall b
      ensures x * r.Reaching(b) == x * L.Reaching(b)
      ensures r.HasOut(b) <==> L.HasOut(b)
    {
    }
  }

  /** The dimensions of a list that are no identity dimensions, in order. */
  function NonIdentity(dims: seq<Dim>, A: Layout, B: Layout): seq<Dim> {
    if dims == [] then []
    else
      var d := dims[|dims| - 1];
      NonIdentity(dims[..|dims| - 1], A, B) + (if IsIdentityDim(A, B, d) then [] else [d])
  }

  lemma {:induction false} NonIdentityMembers(dims: seq<Dim>, A: Layout, B: Layout)
    requires NoDup(dims)
    ensures NoDup(NonIdentity(dims, A, B))
    ensures forall d :: d in NonIdentity(dims, A, B) <==> d in dims && !IsIdentityDim(A, B, d)
  {
    hide IsIdentityDim;
    if dims != [] {
      NonIdentityMembers(dims[..|dims| - 1], A, B);
      assert forall d :: d in dims <==> d in dims[..|dims| - 1] || d == dims[|dims| - 1];
    }
  }

  method Others(dims: seq<Dim>, ids: seq<Dim>, ghost A: Layout, ghost B: Layout) returns (rest: seq<Dim>)
    requires forall d :: d in ids <==> IsIdentityDim(A, B, d)
    ensures rest == NonIdentity(dims, A, B)
  {
    hide IsIdentityDim;
    rest := [];
    for k := 0 to |dims|
      invariant rest == NonIdentity(dims[..k], A, B)
    {
      assert dims[..k + 1][..k] == dims[..k];
      if dims[k] !in ids {
        rest := rest + [dims[k]];
      }
    }
    assert dims[..|dims|] == dims;
  }

  lemma IdentityDimSizes(A: Layout, B: Layout, d: Dim)
    requires IsIdentityDim(A, B, d)
    ensures A.InSize(d) == B.InSize(d)
  {
  }

  method IdentityDims(A: Layout, B: Layout) returns (ids: seq<Dim>)
    requires A.Valid()
    ensures NoDup(ids) && forall d :: d in ids <==> IsIdentityDim(A, B, d)
  {
    hide IsIdentityDim;
    ids := [];
    for k := 0 to |A.inDims|
      invariant NoDup(ids) && forall d :: d in ids <==> d in A.inDims[..k] && IsIdentityDim(A, B, d)
    {
      if IsIdentityDim(A, B, A.inDims[k]) {
        ids := ids + [A.inDims[k]];
      }
    }
    IdentityDimsAreDims(A, B);
  }

  lemma IdentityDimsAreDims(A: Layout, B: Layout)
    requires A.Valid()
    ensures forall d :: IsIdentityDim(A, B, d) ==>
      d in A.inDims && d in A.bases && d in B.bases && A.bases[d] == B.bases[d]
  {
  }

  /** The layout that maps one dimension to itself. */
  function Identity1D(size: nat, d: Dim): (r: Layout)
    ensures r.Valid() && r.InSize(d) == size == r.OutSize(d)
    ensures forall e :: e in r.bases <==> e == d
    ensures forall e :: e in r.outSizes <==> e == d
    ensures forall i: nat :: i < size ==> r.Basis(Bit(d, i)) == {Bit(d, i)}
  {
    Layout([d], map[d := seq(size, i requires 0 <= i => {Bit(d, i)})], [d], map[d := size])
  }

  /** ret is base with identity maps added for the dimensions ids of A. */
  ghost predicate IsExtended(ret: Layout, base: Layout, A: Layout, ids: seq<Dim>) {
    && ret.Valid()
    && (forall d :: d in ret.bases <==> d in base.bases || d in ids)
    && (forall d :: d in ret.outSizes <==> d in base.outSizes || d in ids)
    && (forall d :: ret.InSize(d) == if d in ids then A.InSize(d) else base.InSize(d))
    && (forall d :: ret.OutSize(d) == if d in ids then A.InSize(d) else base.OutSize(d))
    && (forall c: Bit :: c.dim in ids && c.pos < A.InSize(c.dim) ==> ret.Basis(c) == {c})
    && (forall c: Bit :: c.dim !in ids ==> ret.Basis(c) == base.Basis(c))
  }

  lemma ExtendOne(ret: Layout, base: Layout, A: Layout, ids: seq<Dim>, k: nat, id: Layout, ret': Layout)
    requires NoDup(ids) && k < |ids| && ids[k] !in base.bases && ids[k] !in base.outSizes
    requires IsExtended(ret, base, A, ids[..k]) && id == Identity1D(A.InSize(ids[k]), ids[k])
    requires ret'.Valid() && IsBlockProduct(ret', ret, id)
    ensures IsExtended(ret', base, A, ids[..k + 1])
  {
    hide Identity1D, Layout.Valid, Layout.Basis, Layout.InSize, Layout.OutSize, IsBlockProduct;
    var d := ids[k];
    NewDimension(ret, base, A, ids, k);
    ExtendedSizes(ret, d, A.InSize(d), ret');
    forall c
      ensures ret'.Basis(c) == if c.dim == d then (if c.pos < A.InSize(d) then {c} else {}) else ret.Basis(c)
    {
      IdentityBlock(ret, d, A.InSize(d), ret', c);
    }
  }

  lemma NewDimension(ret: Layout, base: Layout, A: Layout, ids: seq<Dim>, k: nat)
    requires NoDup(ids) && k < |ids| && ids[k] !in base.bases && ids[k] !in base.outSizes
    requires IsExtended(ret, base, A, ids[..k])
    ensures ids[k] !in ids[..k] && ret.InSize(ids[k]) == 0 && ret.OutSize(ids[k]) == 0
    ensures forall e :: e in ids[..k + 1] <==> e in ids[..k] || e == ids[k]
  {
  }

  lemma ExtendedSizes(ret: Layout, d: Dim, size: nat, ret': Layout)
    requires IsBlockProduct(ret', ret, Identity1D(size, d)) && ret.InSize(d) == 0 && ret.OutSize(d) == 0
    ensures forall e :: ret'.InSize(e) == (if e == d then size else ret.InSize(e))
    ensures forall e :: ret'.OutSize(e) == (if e == d then size else ret.OutSize(e))
    ensures forall e :: e in ret'.bases <==> e in ret.bases || e == d
    ensures forall e :: e in ret'.outSizes <==> e in ret.outSizes || e == d
  {
  }

  lemma IdentityBlock(ret: Layout, d: Dim, size: nat, ret': Layout, c: Bit)
    requires IsBlockProduct(ret', ret, Identity1D(size, d)) && ret.InSize(d) == 0 && ret.OutSize(d) == 0
    ensures ret'.Basis(c) == if c.dim == d then (if c.pos < size then {c} else {}) else ret.Basis(c)
  {
    hide Raised;
    var id := Identity1D(size, d);
    assert ret'.InSize(c.dim) == ret.InSize(c.dim) + id.InSize(c.dim);
    if ret'.HasIn(c) {
      assert ret'.Basis(c) == ProductBasis(ret, id, c);
      if c.dim == d {
        assert Bit(d, c.pos - 0) == c;
        NotRaised(c, ret);
      }
    }
  }

  lemma NotRaised(c: Bit, ret: Layout)
    requires ret.OutSize(c.dim) == 0
    ensures Raised({c}, ret) == {c}
  {
  }

  // ---------------------------------------------------------------- inversion

  /** A and B without their identity dimensions. */
  function ReducedLayout(L: Layout, A: Layout, B: Layout): Layout {
    SubLayout(L, NonIdentity(L.inDims, A, B))
  }

  /** What is left of the equation once the identity dimensions are taken out has a solution. */
  ghost predicate Solvable(A: Layout, B: Layout) {
    && (NonIdentity(A.inDims, A, B) == [] <==> NonIdentity(B.inDims, A, B) == [])
    && forall c :: ReducedLayout(B, A, B).HasIn(c) ==> InImage(ReducedLayout(A, A, B), B.Basis(c))
  }

  /** X solves A . X = B, is the identity where A and B agree, and elsewhere leaves the free bits of A zero. */
  ghost predicate IsInversion(X: Layout, A: Layout, B: Layout) {
    && X.Valid() && X.inDims == B.inDims && X.outDims == A.inDims
    && (forall d :: X.InSize(d) == B.InSize(d) && X.OutSize(d) == A.InSize(d))
    && (forall x :: A.Image(X.Image(x)) == B.Image(x))
    && (forall c: Bit :: B.HasIn(c) && IsIdentityDim(A, B, c.dim) ==> X.Basis(c) == {c})
    && (forall c :: ReducedLayout(B, A, B).HasIn(c) ==> IsLeastInput(ReducedLayout(A, A, B), B.Basis(c), X.Basis(c)))
  }

  /**
   * The layout X from inputs of B to inputs of outer with outer(X(x)) = B(x).  Fails, where the original's
   * assertions would, when one side has only identity dimensions and the other has not, or when outer reaches
   * some other basis vector of B only through its identity dimensions or not at all.
   */
  method InvertAndCompose(B: Layout, outer: Layout) returns (r: Option<Layout>)
    requires B.Valid() && outer.Valid()
    requires forall d :: d in B.outDims <==> d in outer.outDims
    requires forall d :: B.OutSize(d) <= outer.OutSize(d)
    ensures var A := outer.(outDims := B.outDims);
      && (r.Some? <==> Solvable(A, B))
      && (r.Some? ==> IsInversion(r.value, A, B))
  {
    hide Layout.Valid, IsIdentityDim, NonIdentity, Layout.Image, InImage, IsLeastInput, Identity1D, IsExtended;
    var A := outer.(outDims := B.outDims);
    TransposedValid(outer, B, A);
    var identityDims := IdentityDims(A, B);
    var aDims := Others(A.inDims, identityDims, A, B);
    var bDims := Others(B.inDims, identityDims, A, B);
    if (aDims == []) != (bDims == []) {
      return None;
    }
    ReducedValid(A, A, B);
    ReducedValid(B, A, B);
    var AReduced, BReduced := SubLayout(A, aDims), SubLayout(B, bDims);
    var solved := LayoutLstsq(AReduced, BReduced);
    if solved.None? {
      assert !Solvable(A, B);
      return None;
    }
    BaseAvoidsIdentities(solved.value, A, B, identityDims);
    var ret := AddIdentities(solved.value, A, B, identityDims);
    var X := Layout(B.inDims, ret.bases, A.inDims, ret.outSizes);
    ExtendedIsInversion(X, ret, solved.value, A, B, identityDims);
    return Some(X);
  }

  lemma BaseAvoidsIdentities(base: Layout, A: Layout, B: Layout, ids: seq<Dim>)
    requires A.Valid() && B.Valid() && base.Valid() && forall d :: d in ids <==> IsIdentityDim(A, B, d)
    requires base.inDims == NonIdentity(B.inDims, A, B) && base.outDims == NonIdentity(A.inDims, A, B)
    ensures forall k :: 0 <= k < |ids| ==> ids[k] !in base.bases && ids[k] !in base.outSizes
    ensures forall d :: d in base.bases <==> d in B.bases && d !in ids
    ensures forall d :: d in base.outSizes <==> d in A.bases && d !in ids
  {
    hide IsIdentityDim, NonIdentity;
    NonIdentityMembers(A.inDims, A, B);
    NonIdentityMembers(B.inDims, A, B);
    assert forall k :: 0 <= k < |ids| ==> ids[k] in ids;
  }

  /** Multiplies in the identity maps of the dimensions on which A and B agree. */
  method AddIdentities(base: Layout, A: Layout, B: Layout, ids: seq<Dim>) returns (ret: Layout)
    requires base.Valid() && NoDup(ids)
    requires forall k :: 0 <= k < |ids| ==> ids[k] !in base.bases && ids[k] !in base.outSizes
    ensures IsExtended(ret, base, A, ids)
  {
    hide Identity1D, IsExtended, IsBlockProduct, IsMerge, SameOrder, Merged;
    ret := base;
    NotExtended(base, A, ids);
    for k := 0 to |ids|
      invariant ret.Valid() && IsExtended(ret, base, A, ids[..k])
    {
      var id := Identity1D(A.InSize(ids[k]), ids[k]);
      var next := Product(ret, id);
      ExtendOne(ret, base, A, ids, k, id, next);
      ret := next;
    }
    assert ids[..|ids|] == ids;
  }

  lemma NotExtended(base: Layout, A: Layout, ids: seq<Dim>)
    requires base.Valid()
    ensures IsExtended(base, base, A, ids[..0])
  {
  }

  lemma TransposedValid(outer: Layout, B: Layout, A: Layout)
    requires B.Valid() && outer.Valid() && A == outer.(outDims := B.outDims)
    requires forall d :: d in B.outDims <==> d in outer.outDims
    ensures A.Valid()
  {
    assert forall c :: A.Basis(c) == outer.Basis(c) && A.HasIn(c) == outer.HasIn(c);
    assert forall b :: A.HasOut(b) == outer.HasOut(b);
  }

  lemma ReducedValid(L: Layout, A: Layout, B: Layout)
    requires L.Valid()
    ensures ReducedLayout(L, A, B).Valid() && ReducedLayout(L, A, B).OutBits() == L.OutBits()
    ensures forall c: Bit :: ReducedLayout(L, A, B).HasIn(c) <==> L.HasIn(c) && !IsIdentityDim(A, B, c.dim)
    ensures forall c :: ReducedLayout(L, A, B).HasIn(c) ==> ReducedLayout(L, A, B).Basis(c) == L.Basis(c)
    ensures forall d :: ReducedLayout(L, A, B).InSize(d) == if IsIdentityDim(A, B, d) then 0 else L.InSize(d)
  {
    hide IsIdentityDim, NonIdentity;
    NonIdentityMembers(L.inDims, A, B);
    SubLayoutValid(L, NonIdentity(L.inDims, A, B));
  }

  lemma ExtendedIsInversion(X: Layout, ret: Layout, base: Layout, A: Layout, B: Layout, ids: seq<Dim>)
    requires A.Valid() && B.Valid() && forall d :: d in ids <==> IsIdentityDim(A, B, d)
    requires IsExtended(ret, base, A, ids) && X == Layout(B.inDims, ret.bases, A.inDims, ret.outSizes)
    requires base.Valid() && base.inDims == NonIdentity(B.inDims, A, B) && base.outDims == NonIdentity(A.inDims, A, B)
    requires forall d ::
      base.InSize(d) == ReducedLayout(B, A, B).InSize(d) && base.OutSize(d) == ReducedLayout(A, A, B).InSize(d)
    requires forall c :: ReducedLayout(B, A, B).HasIn(c) ==>
      IsLeastInput(ReducedLayout(A, A, B), ReducedLayout(B, A, B).Basis(c), base.Basis(c))
    ensures IsInversion(X, A, B)
  {
    hide IsIdentityDim, NonIdentity, Layout.Image, IsLeastInput, Layout.Valid, ReducedLayout;
    ReducedValid(A, A, B);
    ReducedValid(B, A, B);
    ExtendedShape(X, ret, base, A, B, ids);
    IdentityDimsAreDims(A, B);
    forall c
      ensures A.Image(X.Basis(c)) == B.Basis(c)
    {
      if B.HasIn(c) {
        if IsIdentityDim(A, B, c.dim) {
          ImageUnit(A, c);
        } else {
          LeastInputOfReduced(A, B, B.Basis(c), X.Basis(c));
        }
      } else {
        ImageNothing(A);
      }
    }
    forall x
      ensures A.Image(X.Image(x)) == B.Image(x)
    {
      SameOnUnits(X, A, B, x);
    }
  }

  lemma ExtendedShape(X: Layout, ret: Layout, base: Layout, A: Layout, B: Layout, ids: seq<Dim>)
    requires A.Valid() && B.Valid() && forall d :: d in ids <==> IsIdentityDim(A, B, d)
    requires IsExtended(ret, base, A, ids) && X == Layout(B.inDims, ret.bases, A.inDims, ret.outSizes)
    requires base.Valid() && base.inDims == NonIdentity(B.inDims, A, B) && base.outDims == NonIdentity(A.inDims, A, B)
    requires forall d :: base.InSize(d) == (if IsIdentityDim(A, B, d) then 0 else B.InSize(d))
    requires forall d :: base.OutSize(d) == (if IsIdentityDim(A, B, d) then 0 else A.InSize(d))
    ensures X.Valid()
    ensures forall d :: X.InSize(d) == B.InSize(d) && X.OutSize(d) == A.InSize(d)
    ensures forall c: Bit :: B.HasIn(c) && IsIdentityDim(A, B, c.dim) ==> X.Basis(c) == {c}
    ensures forall c: Bit :: B.HasIn(c) && !IsIdentityDim(A, B, c.dim) ==> X.Basis(c) == base.Basis(c)
  {
    hide IsIdentityDim, NonIdentity, Layout.Valid, Layout.Basis, Layout.InSize, Layout.OutSize;
    IdentityDimsAreDims(A, B);
    BaseAvoidsIdentities(base, A, B, ids);
    SameMaps(X, ret);
    forall d
      ensures X.InSize(d) == B.InSize(d) && X.OutSize(d) == A.InSize(d)
    {
      if IsIdentityDim(A, B, d) {
        IdentityDimSizes(A, B, d);
      }
    }
    RelistedValid(X, ret, A, B);
  }

  lemma SameMaps(X: Layout, ret: Layout)
    requires X.bases == ret.bases && X.outSizes == ret.outSizes
    ensures forall d :: X.InSize(d) == ret.InSize(d) && X.OutSize(d) == ret.OutSize(d)
    ensures forall c :: X.Basis(c) == ret.Basis(c)
  {
  }

  lemma RelistedValid(X: Layout, ret: Layout, A: Layout, B: Layout)
    requires A.Valid() && B.Valid() && ret.Valid() && X == Layout(B.inDims, ret.bases, A.inDims, ret.outSizes)
    requires forall d :: d in ret.bases <==> d in B.bases
    requires forall d :: d in ret.outSizes <==> d in A.bases
    ensures X.Valid()
  {
    forall c, b | X.HasIn(c) && b in X.Basis(c)
      ensures X.HasOut(b)
    {
      assert ret.HasIn(c) && b in ret.Basis(c) && ret.HasOut(b);
    }
  }

  lemma LeastInputOfReduced(A: Layout, B: Layout, w: set<Bit>, v: set<Bit>)
    requires A.Valid() && IsLeastInput(ReducedLayout(A, A, B), w, v)
    ensures A.Image(v) == w
  {
    hide NonIdentity, IsIdentityDim, IsFreeBit, Layout.Image, Layout.Valid;
    ValidDims(A);
    NonIdentityMembers(A.inDims, A, B);
    SubLayoutImage(A, NonIdentity(A.inDims, A, B), v);
  }

  lemma ValidDims(A: Layout)
    requires A.Valid()
    ensures NoDup(A.inDims)
  {
  }

  /** Layouts that agree on every single bit agree on every input. */
  lemma {:induction false} SameOnUnits(X: Layout, A: Layout, B: Layout, x: set<Bit>)
    requires X.Valid() && A.Valid() && B.Valid() && forall c :: A.Image(X.Basis(c)) == B.Basis(c)
    ensures A.Image(X.Image(x)) == B.Image(x)
    decreases x
  {
    hide Layout.Image, Layout.Valid;
    ImageNothing(X);
    ImageNothing(A);
    ImageNothing(B);
    if x != {} {
      var c :| c in x;
      var y := x - {c};
      SameOnUnits(X, A, B, y);
      assert y + {c} == x;
      ImageInsert(X, y, c);
      ImageInsert(B, y, c);
      ImageXor(A, X.Image(y), X.Basis(c));
    }
  }
}
