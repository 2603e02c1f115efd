/** Dividing a layout by a factor of it, on the left and on the right. */
module LayoutQuotients {
  import opened Basics
  import opened GF2
  import opened Layouts
  import opened LayoutMatrix
  import opened LayoutProducts

  /** Every dimension of B is one of A and no larger there. */
  ghost predicate DimsFit(A: Layout, B: Layout) {
    && (forall d :: d in B.bases ==> d in A.bases)
    && (forall d :: d in B.outSizes ==> d in A.outSizes)
    && (forall d :: B.OutSize(d) <= A.OutSize(d))
    && (forall d :: B.InSize(d) <= A.InSize(d))
  }

  /** DimsFit, read off the dimension lists. */
  predicate DimsFitByName(A: Layout, B: Layout) {
    && (forall d :: d in B.inDims ==> d in A.inDims)
    && (forall d :: d in B.outDims ==> d in A.outDims)
    && (forall d :: d in A.outDims ==> B.OutSize(d) <= A.OutSize(d))
    && (forall d :: d in A.inDims ==> B.InSize(d) <= A.InSize(d))
  }

  lemma DimsFitBoth(A: Layout, B: Layout)
    requires A.Valid() && B.Valid()
    ensures DimsFit(A, B) <==> DimsFitByName(A, B)
  {
  }

  // ---------------------------------------- when a product lists the dividend's dimensions in order

  /** Two duplicate-free lists of the same names in the same order agree. */
  lemma {:induction false} SameOrderPrefix(a: seq<Dim>, r: seq<Dim>, k: nat)
    requires NoDup(a) && NoDup(r) && SameOrder(a, r) && |a| == |r| && k <= |a|
    requires forall e :: e in a <==> e in r
    ensures a[..k] == r[..k]
  {
    if k > 0 {
      SameOrderPrefix(a, r, k - 1);
      assert forall i :: 0 <= i < k - 1 ==> a[i] == a[..k - 1][i] == r[..k - 1][i] == r[i];
      var l := PositionOf(r, a[k - 1]);
      var m := PositionOf(a, r[k - 1]);
      assert l >= k - 1 && m >= k - 1;
    }
  }

  /** Merging in names that a list already has, in its order, gives back the list. */
  lemma MergeWithAll(r: seq<Dim>, x: seq<Dim>, y: seq<Dim>, a: seq<Dim>)
    requires NoDup(a) && ((y == a && forall e :: e in x ==> e in a) || (x == a && forall e :: e in y ==> e in a))
    requires IsSupersequence(r, x, y)
    ensures r == a
  {
    NoDupSize(r);
    NoDupSize(a);
    assert Elems(r) == Elems(a);
    SameOrderPrefix(a, r, |a|);
    assert a[..|a|] == a && r[..|r|] == r;
  }

  /** Two products of the same factors differ at most in the order of their dimensions. */
  lemma SameProduct(A: Layout, product: Layout, inner: Layout, outer: Layout)
    requires A.Valid() && IsBlockProduct(A, inner, outer) && IsBlockProduct(product, inner, outer)
    ensures A == product <==> product.inDims == A.inDims && product.outDims == A.outDims
  {
    if product.inDims == A.inDims && product.outDims == A.outDims {
      SameProductBases(A, product, inner, outer);
    }
  }

  lemma SameProductBases(A: Layout, product: Layout, B: Layout, C: Layout)
    requires A.Valid() && IsBlockProduct(A, B, C) && IsBlockProduct(product, B, C)
    requires product.inDims == A.inDims && product.outDims == A.outDims
    ensures A == product
  {
    hide ProductBasis;
    assert A.bases.Keys == product.bases.Keys && A.outSizes.Keys == product.outSizes.Keys;
    forall c | A.HasIn(c)
      ensures A.Basis(c) == product.Basis(c)
    {
      assert A.Basis(c) == ProductBasis(B, C, c) && product.HasIn(c) && product.Basis(c) == ProductBasis(B, C, c);
    }
    SameLayout(A, product);
  }

  // ---------------------------------------------------------------- the left quotient

  /** Where B has a basis vector A has the same one; the others stay clear of B's output bits. */
  ghost predicate LeftDivisible(A: Layout, B: Layout) {
    && DimsFit(A, B)
    && forall d, i: nat :: i < A.InSize(d) ==> LeftBasisFits(A, B, Bit(d, i))
  }

  predicate LeftBasisFits(A: Layout, B: Layout, c: Bit) {
    if B.HasIn(c) then A.Basis(c) == B.Basis(c)
    else forall b :: b in A.Basis(c) ==> B.OutSize(b.dim) <= b.pos
  }

  function LeftBasis(A: Layout, B: Layout, d: Dim, i: nat): set<Bit> {
    Lowered(A.Basis(Bit(d, i + B.InSize(d))), B)
  }

  function LeftQuotient(A: Layout, B: Layout): (q: Layout)
    requires DimsFit(A, B)
    ensures q.inDims == A.inDims && q.outDims == A.outDims && q.bases.Keys == A.bases.Keys
    ensures forall d :: q.InSize(d) == A.InSize(d) - B.InSize(d) && q.OutSize(d) == A.OutSize(d) - B.OutSize(d)
    ensures forall c :: q.HasIn(c) ==> q.Basis(c) == LeftBasis(A, B, c.dim, c.pos)
  {
    Layout(A.inDims,
           map d | d in A.bases ::
             seq(A.InSize(d) - B.InSize(d), i requires 0 <= i < A.InSize(d) - B.InSize(d) => LeftBasis(A, B, d, i)),
           A.outDims,
           map d | d in A.outSizes :: A.OutSize(d) - B.OutSize(d))
  }

  /** The quotient found, and whether multiplying back gives the dividend itself. */
  datatype Division = NoQuotient | OversizedBasis | NotSurjective | Quotient(layout: Layout, matches: bool)

  /** The merged dimension lists of the factors are those of A. */
  predicate MergesInto(A: Layout, inner: Layout, outer: Layout) {
    && Merged(inner.inDims, outer.inDims) == A.inDims
    && Merged(inner.outDims, outer.outDims) == A.outDims
  }

  /** The quotient C for which A = B * C. */
  method DivideLeft(A: Layout, B: Layout) returns (r: Division)
    requires A.Valid() && B.Valid()
    ensures r.Quotient? <==> LeftDivisible(A, B)
    ensures !r.Quotient? ==> r.NoQuotient?
    ensures r.Quotient? ==> r.layout == LeftQuotient(A, B) && (r.matches <==> MergesInto(A, B, r.layout))
    ensures r.Quotient? && SameOrder(B.inDims, A.inDims) && SameOrder(B.outDims, A.outDims) ==> r.matches
    ensures r.Quotient? && Surjective(A) ==> Surjective(r.layout)
  {
    hide LeftBasis, LeftBasisFits, SameOrder, Layout.Valid, Merged, IsSupersequence;
    DimsFitBoth(A, B);
    if !DimsFitByName(A, B) {
      return NoQuotient;
    }
    var cBases: map<Dim, seq<set<Bit>>> := map[];
    for k := 0 to |A.inDims|
      invariant forall d :: d in cBases <==> d in A.inDims[..k]
      invariant forall d :: d in cBases ==> IsLeftColumn(A, B, d, cBases[d])
    {
      var basesForDim := LeftColumn(A, B, A.inDims[k]);
      if basesForDim.None? {
        assert !LeftDivisible(A, B);
        return NoQuotient;
      }
      cBases := cBases[A.inDims[k] := basesForDim.value];
    }
    var C := Layout(A.inDims, cBases, A.outDims, map d | d in A.outDims :: A.OutSize(d) - B.OutSize(d));
    LeftColumnsMakeQuotient(A, B, C);
    LeftQuotientSound(A, B);
    var product := Product(B, C);
    SameProduct(A, product, B, C);
    FactorInOrder(A, product, B, C, B);
    if Surjective(A) {
      LeftQuotientSurjective(A, B);
    }
    r := Quotient(C, product == A);
  }

  /** An input on which the division answers and its final assertion fails: the lists of dimensions differ in order. */
  lemma LeftAssertionFails(a: Dim, b: Dim, x: Dim, y: Dim)
    requires a != b && x != y
    ensures var A, B := TwoByTwo([a, b], a, b, x, y), TwoByTwo([b, a], a, b, x, y);
      A.Valid() && B.Valid() && LeftDivisible(A, B) && !MergesInto(A, B, LeftQuotient(A, B))
  {
    hide TwoByTwo, Merged, LeftBasis, Layout.Valid, LeftDivisible, Layout.InSize, Layout.OutSize, Layout.Basis;
    TwoByTwoShape([a, b], a, b, x, y);
    TwoByTwoShape([b, a], a, b, x, y);
    TwoByTwoFits(a, b, x, y);
    InconsistentOrdersAreMerged(b, a);
    assert [b, a][0] != [a, b][0];
  }

  lemma TwoByTwoFits(a: Dim, b: Dim, x: Dim, y: Dim)
    requires a != b && x != y
    ensures var A, B := TwoByTwo([a, b], a, b, x, y), TwoByTwo([b, a], a, b, x, y);
      LeftDivisible(A, B) && LeftQuotient(A, B).inDims == A.inDims
  {
    TwoByTwoShape([a, b], a, b, x, y);
    TwoByTwoShape([b, a], a, b, x, y);
    hide TwoByTwo, LeftBasis;
  }

  /** A factor that keeps the order of the dividend's dimensions multiplies back to the dividend. */
  lemma FactorInOrder(A: Layout, product: Layout, inner: Layout, outer: Layout, x: Layout)
    requires A.Valid() && IsBlockProduct(A, inner, outer)
    requires (x == inner && outer.inDims == A.inDims && outer.outDims == A.outDims)
          || (x == outer && inner.inDims == A.inDims && inner.outDims == A.outDims)
    requires x.Valid()
    requires SameOrder(inner.inDims, outer.inDims) ==> IsSupersequence(product.inDims, inner.inDims, outer.inDims)
    requires SameOrder(inner.outDims, outer.outDims) ==> IsSupersequence(product.outDims, inner.outDims, outer.outDims)
    ensures SameOrder(inner.inDims, outer.inDims) ==> product.inDims == A.inDims
    ensures SameOrder(inner.outDims, outer.outDims) ==> product.outDims == A.outDims
  {
    hide IsSupersequence, SameOrder;
    forall e | e in x.inDims
      ensures e in A.inDims
    {
      assert e in A.bases;
    }
    forall e | e in x.outDims
      ensures e in A.outDims
    {
      assert e in A.outSizes;
    }
    if SameOrder(inner.inDims, outer.inDims) {
      MergeWithAll(product.inDims, inner.inDims, outer.inDims, A.inDims);
    }
    if SameOrder(inner.outDims, outer.outDims) {
      MergeWithAll(product.outDims, inner.outDims, outer.outDims, A.outDims);
    }
  }

  ghost predicate IsLeftColumn(A: Layout, B: Layout, d: Dim, bs: seq<set<Bit>>) {
    && |bs| == A.InSize(d) - B.InSize(d)
    && (forall i :: 0 <= i < |bs| ==> bs[i] == LeftBasis(A, B, d, i))
    && forall i: nat :: i < A.InSize(d) ==> LeftBasisFits(A, B, Bit(d, i))
  }

  /** The candidate bases for one input dimension, unless A does not have the block form there. */
  method LeftColumn(A: Layout, B: Layout, d: Dim) returns (r: Option<seq<set<Bit>>>)
    requires B.InSize(d) <= A.InSize(d)
    ensures r.None? ==> exists i: nat :: i < A.InSize(d) && !LeftBasisFits(A, B, Bit(d, i))
    ensures r.Some? ==> IsLeftColumn(A, B, d, r.value)
  {
    hide LeftBasisFits, LeftBasis;
    for i := 0 to B.InSize(d)
      invariant forall j: nat :: j < i ==> LeftBasisFits(A, B, Bit(d, j))
    {
      if !LeftBasisFits(A, B, Bit(d, i)) {
        return None;
      }
    }
    var basesForDim: seq<set<Bit>> := [];
    for i := B.InSize(d) to A.InSize(d)
      invariant |basesForDim| == i - B.InSize(d)
      invariant forall j :: 0 <= j < |basesForDim| ==> basesForDim[j] == LeftBasis(A, B, d, j)
      invariant forall j: nat :: j < i ==> LeftBasisFits(A, B, Bit(d, j))
    {
      if !LeftBasisFits(A, B, Bit(d, i)) {
        return None;
      }
      basesForDim := basesForDim + [LeftBasis(A, B, d, i - B.InSize(d))];
    }
    return Some(basesForDim);
  }

  lemma LeftColumnsMakeQuotient(A: Layout, B: Layout, C: Layout)
    requires A.Valid() && DimsFit(A, B)
    requires forall d :: d in C.bases <==> d in A.inDims
    requires forall d :: d in C.bases ==> IsLeftColumn(A, B, d, C.bases[d])
    requires C.inDims == A.inDims && C.outDims == A.outDims
    requires C.outSizes == map d | d in A.outDims :: A.OutSize(d) - B.OutSize(d)
    ensures LeftDivisible(A, B) && C == LeftQuotient(A, B)
  {
    hide LeftBasis, LeftBasisFits;
    var q := LeftQuotient(A, B);
    assert C.outSizes == q.outSizes;
    forall d | d in C.bases
      ensures C.bases[d] == q.bases[d]
    {
      forall i | 0 <= i < |C.bases[d]|
        ensures C.bases[d][i] == q.bases[d][i]
      {
        assert q.Basis(Bit(d, i)) == LeftBasis(A, B, d, i);
      }
    }
    assert C.bases == q.bases;
  }

  /** B times the quotient is A. */
  lemma LeftQuotientSound(A: Layout, B: Layout)
    requires A.Valid() && B.Valid() && LeftDivisible(A, B)
    ensures LeftQuotient(A, B).Valid() && IsBlockProduct(A, B, LeftQuotient(A, B))
  {
    hide LeftBasis, LeftBasisFits, ProductBasis;
    var q := LeftQuotient(A, B);
    forall c | A.HasIn(c)
      ensures A.Basis(c) == ProductBasis(B, q, c)
    {
      LeftBasisBack(A, B, c);
    }
    forall c, b | q.HasIn(c) && b in q.Basis(c)
      ensures q.HasOut(b)
    {
      LeftBasisInRange(A, B, c, b);
    }
  }

  lemma LeftBasisInRange(A: Layout, B: Layout, c: Bit, b: Bit)
    requires A.Valid() && b in LeftBasis(A, B, c.dim, c.pos)
    ensures b.pos + B.OutSize(b.dim) < A.OutSize(b.dim)
  {
    hide Lowered;
    InLowered(A.Basis(Bit(c.dim, c.pos + B.InSize(c.dim))), B, b);
    assert A.HasOut(Bit(b.dim, b.pos + B.OutSize(b.dim)));
  }

  lemma LeftBasisBack(A: Layout, B: Layout, c: Bit)
    requires LeftDivisible(A, B) && A.HasIn(c)
    ensures A.Basis(c) == ProductBasis(B, LeftQuotient(A, B), c)
  {
    hide Raised, Lowered, LeftQuotient;
    assert LeftBasisFits(A, B, Bit(c.dim, c.pos));
    if !B.HasIn(c) {
      var c' := Bit(c.dim, c.pos - B.InSize(c.dim));
      assert LeftQuotient(A, B).HasIn(c');
      assert LeftQuotient(A, B).Basis(c') == Lowered(A.Basis(c), B);
      LoweredAndRaised(A.Basis(c), B);
    }
  }

  lemma LoweredAndRaised(v: set<Bit>, B: Layout)
    requires forall b :: b in v ==> B.OutSize(b.dim) <= b.pos
    ensures Raised(Lowered(v, B), B) == v
  {
  }

  /** Any layout whose product with B is A has the quotient's basis vectors. */
  lemma LeftQuotientUnique(A: Layout, B: Layout, C: Layout)
    requires A.Valid() && B.Valid() && C.Valid() && IsBlockProduct(A, B, C)
    ensures LeftDivisible(A, B)
    ensures forall c :: C.HasIn(c) <==> LeftQuotient(A, B).HasIn(c)
    ensures forall c :: C.HasIn(c) ==> C.Basis(c) == LeftQuotient(A, B).Basis(c)
    ensures forall d :: C.OutSize(d) == LeftQuotient(A, B).OutSize(d)
    ensures C.inDims == A.inDims && C.outDims == A.outDims ==> C == LeftQuotient(A, B)
  {
    hide LeftBasis, LeftBasisFits, IsBlockProduct, LeftQuotient;
    ProductIsDivisible(A, B, C);
    QuotientSizes(A, B, C);
    var q := LeftQuotient(A, B);
    forall c | C.HasIn(c)
      ensures C.Basis(c) == q.Basis(c)
    {
      FactorBasis(A, B, C, c);
    }
    if C.inDims == A.inDims && C.outDims == A.outDims {
      SameLayout(C, q);
    }
  }

  lemma ProductIsDivisible(A: Layout, B: Layout, C: Layout)
    requires A.Valid() && B.Valid() && C.Valid() && IsBlockProduct(A, B, C)
    ensures LeftDivisible(A, B)
  {
    hide LeftBasisFits, IsBlockProduct, DimsFit;
    SizesFit(A, B, C);
    forall d, i: nat | i < A.InSize(d)
      ensures LeftBasisFits(A, B, Bit(d, i))
    {
      FactorFits(A, B, C, Bit(d, i));
    }
  }

  lemma QuotientSizes(A: Layout, B: Layout, C: Layout)
    requires A.Valid() && C.Valid() && IsBlockProduct(A, B, C) && DimsFit(A, B)
    ensures forall d :: C.InSize(d) == LeftQuotient(A, B).InSize(d) && C.OutSize(d) == LeftQuotient(A, B).OutSize(d)
    ensures C.inDims == A.inDims ==> C.bases.Keys == LeftQuotient(A, B).bases.Keys
    ensures C.outDims == A.outDims ==> C.outSizes.Keys == LeftQuotient(A, B).outSizes.Keys
  {
    hide ProductBasis;
    var q := LeftQuotient(A, B);
    forall d
      ensures C.InSize(d) == q.InSize(d) && C.OutSize(d) == q.OutSize(d)
    {
      assert A.InSize(d) == B.InSize(d) + C.InSize(d) && A.OutSize(d) == B.OutSize(d) + C.OutSize(d);
    }
    if C.inDims == A.inDims {
      assert forall d :: d in C.bases <==> d in A.bases;
    }
    if C.outDims == A.outDims {
      assert forall d :: d in C.outSizes <==> d in A.outSizes;
    }
  }

  lemma SizesFit(A: Layout, B: Layout, C: Layout)
    requires IsBlockProduct(A, B, C)
    ensures DimsFit(A, B)
  {
  }

  lemma FactorFits(A: Layout, B: Layout, C: Layout, c: Bit)
    requires A.Valid() && B.Valid() && C.Valid() && IsBlockProduct(A, B, C) && A.HasIn(c)
    ensures LeftBasisFits(A, B, c)
  {
  }

  lemma FactorBasis(A: Layout, B: Layout, C: Layout, c: Bit)
    requires IsBlockProduct(A, B, C) && C.HasIn(c)
    ensures C.Basis(c) == LeftBasis(A, B, c.dim, c.pos)
  {
    hide Raised, Lowered;
    var c' := Bit(c.dim, c.pos + B.InSize(c.dim));
    assert A.InSize(c.dim) == B.InSize(c.dim) + C.InSize(c.dim);
    assert A.HasIn(c') && A.Basis(c') == ProductBasis(B, C, c');
    assert A.Basis(c') == Raised(C.Basis(c), B);
    RaisedAndLowered(C.Basis(c), B);
  }

  lemma RaisedAndLowered(v: set<Bit>, B: Layout)
    ensures Lowered(Raised(v, B), B) == v
  {
  }

  /** A quotient exists exactly when the checks pass. */
  lemma LeftDivisibleIff(A: Layout, B: Layout)
    requires A.Valid() && B.Valid()
    ensures LeftDivisible(A, B) <==> exists C: Layout :: C.Valid() && IsBlockProduct(A, B, C)
  {
    if LeftDivisible(A, B) {
      LeftQuotientSound(A, B);
    }
    if C: Layout :| C.Valid() && IsBlockProduct(A, B, C) {
      LeftQuotientUnique(A, B, C);
    }
  }

  /** The quotient of a surjective layout is surjective, as its constructor demands. */
  lemma LeftQuotientSurjective(A: Layout, B: Layout)
    requires A.Valid() && B.Valid() && LeftDivisible(A, B) && Surjective(A)
    ensures Surjective(LeftQuotient(A, B))
  {
    LeftQuotientSound(A, B);
    ProductSurjective(A, B, LeftQuotient(A, B));
  }

  /** Dividing a product by its left factor gives back the right one, when that lists all dimensions of the product. */
  lemma ProductThenDivideLeft(A: Layout, B: Layout, C: Layout)
    requires A.Valid() && B.Valid() && C.Valid() && IsBlockProduct(A, B, C)
    requires C.inDims == A.inDims && C.outDims == A.outDims
    ensures LeftDivisible(A, B) && LeftQuotient(A, B) == C
  {
    LeftQuotientUnique(A, B, C);
  }

  // ---------------------------------------------------------------- the right quotient

  function RightQuotient(A: Layout, B: Layout): (q: Layout)
    requires DimsFit(A, B)
    ensures q.inDims == A.inDims && q.outDims == A.outDims && q.bases.Keys == A.bases.Keys
      && q.outSizes.Keys == A.outSizes.Keys
    ensures forall d :: q.InSize(d) == A.InSize(d) - B.InSize(d) && q.OutSize(d) == A.OutSize(d) - B.OutSize(d)
    ensures forall c :: q.HasIn(c) ==> q.Basis(c) == A.Basis(c)
  {
    Layout(A.inDims, map d | d in A.bases :: A.bases[d][..A.InSize(d) - B.InSize(d)],
           A.outDims, map d | d in A.outSizes :: A.OutSize(d) - B.OutSize(d))
  }

  /** The part of v in the output dimensions of B. */
  function OnDimsOf(v: set<Bit>, B: Layout): (r: set<Bit>)
    ensures forall b :: b in r <==> b in v && b.dim in B.outSizes
  {
    set b | b in v && b.dim in B.outSizes
  }

  /** The basis vectors of A after those of the quotient, in the output dimensions of B, are those of B moved up. */
  predicate RightBasisFits(A: Layout, B: Layout, d: Dim, i: nat)
    requires DimsFit(A, B)
  {
    var v := OnDimsOf(A.Basis(Bit(d, i + (A.InSize(d) - B.InSize(d)))), B);
    && (forall b :: b in v ==> A.OutSize(b.dim) - B.OutSize(b.dim) <= b.pos)
    && Lowered(v, RightQuotient(A, B)) == B.Basis(Bit(d, i))
  }

  lemma RightBasisFitsMeans(A: Layout, B: Layout, d: Dim, i: nat)
    requires DimsFit(A, B)
    ensures var q := RightQuotient(A, B);
      RightBasisFits(A, B, d, i) <==> OnDimsOf(A.Basis(Bit(d, i + q.InSize(d))), B) == Raised(B.Basis(Bit(d, i)), q)
  {
    hide Raised, Lowered, RightQuotient;
    var q := RightQuotient(A, B);
    var v, w := OnDimsOf(A.Basis(Bit(d, i + q.InSize(d))), B), B.Basis(Bit(d, i));
    if v == Raised(w, q) {
      forall b | b in v
        ensures q.OutSize(b.dim) <= b.pos
      {
        InRaised(w, q, b);
      }
      RaisedAndLowered(w, q);
    }
    if RightBasisFits(A, B, d, i) {
      LoweredAndRaised(v, q);
    }
  }

  /** All that the division checks before it builds the quotient. */
  ghost predicate RightChecked(A: Layout, B: Layout) {
    && DimsFit(A, B)
    && forall d, i: nat :: i < B.InSize(d) ==> RightBasisFits(A, B, d, i)
  }

  /** The first basis vectors of A fit in the output sizes that B leaves over. */
  ghost predicate LowBasesFit(A: Layout, B: Layout)
    requires DimsFit(A, B)
  {
    var q := RightQuotient(A, B);
    forall c, b :: q.HasIn(c) && b in A.Basis(c) ==> q.HasOut(b)
  }

  /** The basis vectors of A that stand for those of B touch no output dimension that B lacks; this is not checked. */
  ghost predicate NoStrayBits(A: Layout, B: Layout)
    requires DimsFit(A, B)
  {
    var q := RightQuotient(A, B);
    forall c, b :: !q.HasIn(c) && b in A.Basis(c) ==> b.dim in B.outSizes
  }

  /** The constructor's demand: the quotient of two surjective layouts is to be surjective. */
  ghost predicate DemandMet(A: Layout, B: Layout)
    requires DimsFit(A, B)
  {
    Surjective(A) && Surjective(B) ==> Surjective(RightQuotient(A, B))
  }

  /** Whether the constructor demands a surjective quotient. */
  method BothSurjective(A: Layout, B: Layout) returns (b: bool)
    requires A.Valid() && B.Valid()
    ensures b <==> Surjective(A) && Surjective(B)
  {
    b := IsSurjective(A);
    if b {
      b := IsSurjective(B);
    }
  }

  /** The quotient C for which A = C * B, as far as the checks tell. */
  method DivideRight(A: Layout, B: Layout) returns (r: Division)
    requires A.Valid() && B.Valid()
    ensures r.NoQuotient? <==> !RightChecked(A, B)
    ensures r.OversizedBasis? <==> RightChecked(A, B) && !LowBasesFit(A, B)
    ensures r.NotSurjective? <==> RightChecked(A, B) && LowBasesFit(A, B) && !DemandMet(A, B)
    ensures r.Quotient? ==> r.layout == RightQuotient(A, B) && r.layout.Valid()
    ensures r.Quotient? ==> (r.matches <==> NoStrayBits(A, B) && MergesInto(A, r.layout, B))
    ensures r.Quotient? && NoStrayBits(A, B) && SameOrder(A.inDims, B.inDims) && SameOrder(A.outDims, B.outDims) ==>
      r.matches
  {
    hide RightBasisFits, SameOrder, Layout.Valid, Merged, IsSupersequence, IsBlockProduct, LowBasesFit,
      NoStrayBits, RightQuotient, Surjective;
    DimsFitBoth(A, B);
    if !DimsFitByName(A, B) {
      return NoQuotient;
    }
    var cBases: map<Dim, seq<set<Bit>>> := map[];
    for k := 0 to |A.inDims|
      invariant forall d :: d in cBases <==> d in A.inDims[..k]
      invariant forall d :: d in cBases ==> d in A.bases && cBases[d] == A.bases[d][..A.InSize(d) - B.InSize(d)]
      invariant forall d, i: nat :: d in cBases && i < B.InSize(d) ==> RightBasisFits(A, B, d, i)
    {
      var d := A.inDims[k];
      DimHasBases(A, k);
      var ok := RightColumn(A, B, d);
      if !ok {
        return NoQuotient;
      }
      cBases := cBases[d := A.bases[d][..A.InSize(d) - B.InSize(d)]];
    }
    var C := Layout(A.inDims, cBases, A.outDims, map d | d in A.outDims :: A.OutSize(d) - B.OutSize(d));
    RightColumnsMakeQuotient(A, B, C);
    RightQuotientValid(A, B);
    if !BasesInRange(C) {
      return OversizedBasis;
    }
    var demanded := BothSurjective(A, B);
    var met := IsSurjective(C);
    if demanded && !met {
      return NotSurjective;
    }
    var product := Product(C, B);
    RightQuotientExact(A, B);
    if NoStrayBits(A, B) {
      SameProduct(A, product, C, B);
      FactorInOrder(A, product, C, B, B);
    }
    r := Quotient(C, product == A);
  }

  lemma DimHasBases(A: Layout, k: nat)
    requires A.Valid() && k < |A.inDims|
    ensures A.inDims[k] in A.bases
  {
  }

  /** Compares the last basis vectors of one input dimension with those of B. */
  method RightColumn(A: Layout, B: Layout, d: Dim) returns (ok: bool)
    requires DimsFit(A, B)
    ensures ok <==> forall i: nat :: i < B.InSize(d) ==> RightBasisFits(A, B, d, i)
  {
    hide RightBasisFits;
    for i := 0 to B.InSize(d)
      invariant forall j: nat :: j < i ==> RightBasisFits(A, B, d, j)
    {
      if !RightBasisFits(A, B, d, i) {
        return false;
      }
    }
    return true;
  }

  /** The constructor's check that every basis value is below the output size. */
  predicate BasesInRange(C: Layout) {
    forall d, i, b :: d in C.bases && 0 <= i < |C.bases[d]| && b in C.bases[d][i] ==> C.HasOut(b)
  }

  lemma RightColumnsMakeQuotient(A: Layout, B: Layout, C: Layout)
    requires A.Valid() && B.Valid() && DimsFit(A, B)
    requires forall d :: d in C.bases <==> d in A.inDims
    requires forall d :: d in C.bases ==> d in A.bases && C.bases[d] == A.bases[d][..A.InSize(d) - B.InSize(d)]
    requires forall d, i: nat :: d in C.bases && i < B.InSize(d) ==> RightBasisFits(A, B, d, i)
    requires C.inDims == A.inDims && C.outDims == A.outDims
    requires C.outSizes == map d | d in A.outDims :: A.OutSize(d) - B.OutSize(d)
    ensures RightChecked(A, B) && C == RightQuotient(A, B)
  {
    hide RightBasisFits;
    var q := RightQuotient(A, B);
    assert C.outSizes == q.outSizes;
    assert C.bases == q.bases;
    forall d, i: nat | i < B.InSize(d)
      ensures RightBasisFits(A, B, d, i)
    {
      assert d in A.inDims;
    }
  }

  lemma RightQuotientValid(A: Layout, B: Layout)
    requires A.Valid() && B.Valid() && DimsFit(A, B)
    ensures var q := RightQuotient(A, B);
      (BasesInRange(q) <==> LowBasesFit(A, B)) && (LowBasesFit(A, B) ==> q.Valid())
  {
    var q := RightQuotient(A, B);
    if BasesInRange(q) {
      forall c, b | q.HasIn(c) && b in A.Basis(c)
        ensures q.HasOut(b)
      {
        assert q.Basis(c) == q.bases[c.dim][c.pos];
      }
    }
    if LowBasesFit(A, B) {
      forall d, i, b | d in q.bases && 0 <= i < |q.bases[d]| && b in q.bases[d][i]
        ensures q.HasOut(b)
      {
        assert q.HasIn(Bit(d, i)) && q.Basis(Bit(d, i)) == q.bases[d][i];
      }
    }
  }

  /** The quotient times B is A exactly when, besides the checks, no basis vector has stray bits. */
  lemma RightQuotientExact(A: Layout, B: Layout)
    requires A.Valid() && B.Valid() && DimsFit(A, B)
    ensures IsBlockProduct(A, RightQuotient(A, B), B) <==> RightChecked(A, B) && NoStrayBits(A, B)
  {
    hide RightBasisFits, RightQuotient, Layout.Valid;
    var q := RightQuotient(A, B);
    if IsBlockProduct(A, q, B) {
      RightProductFits(A, B, q);
    }
    if RightChecked(A, B) && NoStrayBits(A, B) {
      forall c | A.HasIn(c)
        ensures A.Basis(c) == ProductBasis(q, B, c)
      {
        if !q.HasIn(c) {
          RightBasisFitsMeans(A, B, c.dim, c.pos - q.InSize(c.dim));
          assert OnDimsOf(A.Basis(c), B) == A.Basis(c);
        }
      }
    }
  }

  lemma RightProductFits(A: Layout, B: Layout, C: Layout)
    requires A.Valid() && B.Valid() && DimsFit(A, B) && IsBlockProduct(A, C, B)
    ensures RightChecked(A, B) && NoStrayBits(A, B)
  {
    hide RightBasisFits, RightQuotient, Raised, ProductBasis, Layout.Valid, Layout.Basis;
    var q := RightQuotient(A, B);
    forall d
      ensures C.InSize(d) == q.InSize(d) && C.OutSize(d) == q.OutSize(d)
    {
      assert A.InSize(d) == C.InSize(d) + B.InSize(d) && A.OutSize(d) == C.OutSize(d) + B.OutSize(d);
    }
    forall d, i: nat | i < B.InSize(d)
      ensures RightBasisFits(A, B, d, i)
    {
      RightBlockFits(A, B, C, q, d, i);
    }
    forall c, b | !q.HasIn(c) && b in A.Basis(c)
      ensures b.dim in B.outSizes
    {
      RightBlockStays(A, B, C, c, b);
    }
  }

  lemma RightBlockFits(A: Layout, B: Layout, C: Layout, q: Layout, d: Dim, i: nat)
    requires B.Valid() && DimsFit(A, B) && IsBlockProduct(A, C, B) && q == RightQuotient(A, B) && i < B.InSize(d)
    requires forall e :: C.InSize(e) == q.InSize(e) && C.OutSize(e) == q.OutSize(e)
    ensures RightBasisFits(A, B, d, i)
  {
    hide RightBasisFits, RightQuotient, Raised, Layout.Valid;
    RightBasisFitsMeans(A, B, d, i);
    var c := Bit(d, i + q.InSize(d));
    assert A.InSize(d) == C.InSize(d) + B.InSize(d);
    assert A.HasIn(c) && A.Basis(c) == ProductBasis(C, B, c);
    SameShift(B.Basis(Bit(d, i)), C, q);
    RaisedOnDims(B, Bit(d, i), q);
  }

  lemma RightBlockStays(A: Layout, B: Layout, C: Layout, c: Bit, b: Bit)
    requires B.Valid() && IsBlockProduct(A, C, B) && !C.HasIn(c) && b in A.Basis(c)
    ensures b.dim in B.outSizes
  {
    hide Raised;
    assert A.HasIn(c) && A.Basis(c) == ProductBasis(C, B, c);
    var c' := Bit(c.dim, c.pos - C.InSize(c.dim));
    InRaised(B.Basis(c'), C, b);
    assert B.HasIn(c') && B.HasOut(Bit(b.dim, b.pos - C.OutSize(b.dim)));
  }

  lemma SameShift(v: set<Bit>, C: Layout, q: Layout)
    requires forall d :: C.OutSize(d) == q.OutSize(d)
    ensures Raised(v, C) == Raised(v, q)
  {
  }

  lemma RaisedOnDims(B: Layout, c: Bit, q: Layout)
    requires B.Valid()
    ensures OnDimsOf(Raised(B.Basis(c), q), B) == Raised(B.Basis(c), q)
  {
    hide Raised;
    forall b | b in Raised(B.Basis(c), q)
      ensures b.dim in B.outSizes
    {
      InRaised(B.Basis(c), q, b);
      assert B.HasIn(c) && B.HasOut(Bit(b.dim, b.pos - q.OutSize(b.dim)));
    }
  }

  /** A right quotient exists exactly when the checks pass, the first bases fit, and no bits are stray. */
  lemma RightDivisibleIff(A: Layout, B: Layout)
    requires A.Valid() && B.Valid()
    ensures (exists C: Layout :: C.Valid() && IsBlockProduct(A, C, B)) <==>
      RightChecked(A, B) && LowBasesFit(A, B) && NoStrayBits(A, B)
  {
    hide RightBasisFits, IsBlockProduct;
    if C: Layout :| C.Valid() && IsBlockProduct(A, C, B) {
      RightQuotientUnique(A, B, C);
    }
    if RightChecked(A, B) && LowBasesFit(A, B) && NoStrayBits(A, B) {
      RightQuotientExact(A, B);
      RightQuotientValid(A, B);
    }
  }

  /** Dividing a product by its right factor gives back the left one, when that lists all dimensions of the product. */
  lemma RightQuotientUnique(A: Layout, B: Layout, C: Layout)
    requires A.Valid() && B.Valid() && C.Valid() && IsBlockProduct(A, C, B)
    ensures RightChecked(A, B) && LowBasesFit(A, B) && NoStrayBits(A, B)
    ensures C.inDims == A.inDims && C.outDims == A.outDims ==> C == RightQuotient(A, B)
  {
    hide RightBasisFits, RightQuotient, Raised;
    forall d
      ensures B.OutSize(d) <= A.OutSize(d) && B.InSize(d) <= A.InSize(d)
    {
      assert A.OutSize(d) == C.OutSize(d) + B.OutSize(d) && A.InSize(d) == C.InSize(d) + B.InSize(d);
    }
    var q := RightQuotient(A, B);
    RightProductFits(A, B, C);
    RightFactor(A, B, C, q);
    if C.inDims == A.inDims && C.outDims == A.outDims {
      SameLayout(C, q);
    }
  }

  lemma RightFactor(A: Layout, B: Layout, C: Layout, q: Layout)
    requires C.Valid() && A.Valid() && IsBlockProduct(A, C, B) && DimsFit(A, B) && q == RightQuotient(A, B)
    ensures LowBasesFit(A, B)
    ensures forall c :: C.HasIn(c) ==> C.Basis(c) == q.Basis(c)
    ensures forall d :: C.InSize(d) == q.InSize(d) && C.OutSize(d) == q.OutSize(d)
    ensures C.inDims == A.inDims ==> C.bases.Keys == q.bases.Keys
    ensures C.outDims == A.outDims ==> C.outSizes.Keys == q.outSizes.Keys
  {
    hide RightQuotient, Raised;
    forall d
      ensures C.InSize(d) == q.InSize(d) && C.OutSize(d) == q.OutSize(d)
    {
      assert A.InSize(d) == C.InSize(d) + B.InSize(d) && A.OutSize(d) == C.OutSize(d) + B.OutSize(d);
    }
    forall c | C.HasIn(c)
      ensures C.Basis(c) == q.Basis(c)
    {
      assert A.HasIn(c) && A.Basis(c) == ProductBasis(C, B, c);
    }
    forall c, b | q.HasIn(c) && b in A.Basis(c)
      ensures q.HasOut(b)
    {
      assert C.HasIn(c) && b in C.Basis(c) && C.HasOut(b);
    }
    if C.inDims == A.inDims {
      assert forall d :: d in C.bases <==> d in A.bases;
    }
    if C.outDims == A.outDims {
      assert forall d :: d in C.outSizes <==> d in A.outSizes;
    }
  }

  /** Without stray bits the quotient of a surjective layout is surjective, so the constructor's demand is met. */
  lemma RightQuotientSurjective(A: Layout, B: Layout)
    requires A.Valid() && B.Valid() && RightChecked(A, B) && LowBasesFit(A, B) && NoStrayBits(A, B) && Surjective(A)
    ensures Surjective(RightQuotient(A, B))
  {
    hide RightBasisFits, IsBlockProduct, Surjective;
    RightQuotientExact(A, B);
    RightQuotientValid(A, B);
    ProductSurjective(A, RightQuotient(A, B), B);
  }

  const X_BIT := Bit("x", 0)
  const Y_BIT := Bit("y", 0)
  const WITH_STRAY := Layout(["r"], map["r" := [{X_BIT, Y_BIT}]], ["x", "y"], map["x" := 1, "y" := 1])
  const WITHOUT_STRAY := Layout(["r"], map["r" := [{X_BIT}]], ["x"], map["x" := 1])

  /** A layout with a stray bit: the division succeeds, and its quotient times the divisor is not the dividend. */
  lemma StrayBitIsMissed()
    ensures WITH_STRAY.Valid() && WITHOUT_STRAY.Valid()
    ensures RightChecked(WITH_STRAY, WITHOUT_STRAY) && LowBasesFit(WITH_STRAY, WITHOUT_STRAY)
    ensures DemandMet(WITH_STRAY, WITHOUT_STRAY)
    ensures !IsBlockProduct(WITH_STRAY, RightQuotient(WITH_STRAY, WITHOUT_STRAY), WITHOUT_STRAY)
  {
    hide RightBasisFits, RightQuotient;
    StrayLayoutsAreValid();
    StrayFits();
    WithStrayMisses();
    RightQuotientExact(WITH_STRAY, WITHOUT_STRAY);
    assert Y_BIT in WITH_STRAY.Basis(Bit("r", 0)) && !RightQuotient(WITH_STRAY, WITHOUT_STRAY).HasIn(Bit("r", 0));
  }

  lemma StrayLayoutsAreValid()
    ensures WITH_STRAY.Valid() && WITHOUT_STRAY.Valid() && DimsFit(WITH_STRAY, WITHOUT_STRAY)
  {
    WithStrayIsValid();
    WithoutStrayIsValid();
    hide Layout.Valid;
  }

  lemma WithStrayIsValid()
    ensures WITH_STRAY.Valid()
  {
    assert WITH_STRAY.outDims[0] != WITH_STRAY.outDims[1];
  }

  /** Both output bits are set together. */
  lemma WithStrayMisses()
    ensures !Surjective(WITH_STRAY)
  {
    var L := WITH_STRAY;
    NamesDiffer();
    OneInputDim(L, "r", [{X_BIT, Y_BIT}]);
    TwoBitOutput(L, "x", "y");
    hide Layout.HasIn, Layout.HasOut, Layout.Basis;
    assert L.Reaching(X_BIT) == L.Reaching(Y_BIT);
    assert {X_BIT} <= L.OutBits();
    forall v
      ensures L.Image(v) != {X_BIT}
    {
      assert X_BIT in L.Image(v) <==> Y_BIT in L.Image(v);
    }
    assert !InImage(L, {X_BIT});
  }

  lemma WithoutStrayIsValid()
    ensures WITHOUT_STRAY.Valid()
  {
  }

  lemma StrayFits()
    requires DimsFit(WITH_STRAY, WITHOUT_STRAY)
    ensures RightChecked(WITH_STRAY, WITHOUT_STRAY) && LowBasesFit(WITH_STRAY, WITHOUT_STRAY)
  {
    hide RightQuotient, Raised;
    var q := RightQuotient(WITH_STRAY, WITHOUT_STRAY);
    forall d, i: nat | i < WITHOUT_STRAY.InSize(d)
      ensures RightBasisFits(WITH_STRAY, WITHOUT_STRAY, d, i)
    {
      RightBasisFitsMeans(WITH_STRAY, WITHOUT_STRAY, d, i);
      assert d == "r" && i == 0 && q.InSize(d) == 0 && q.OutSize("x") == 0;
      assert OnDimsOf(WITH_STRAY.Basis(Bit("r", 0)), WITHOUT_STRAY) == {X_BIT};
      RaisedByNothing(q);
    }
  }

  lemma RaisedByNothing(q: Layout)
    requires q.OutSize("x") == 0
    ensures Raised({X_BIT}, q) == {X_BIT}
  {
  }

  const STRAY_ONTO := Layout(["r"], map["r" := [{X_BIT}, {Y_BIT}]], ["x", "y"], map["x" := 1, "y" := 1])
  const PLAIN_ONTO := Layout(["r"], map["r" := [{X_BIT}, {}]], ["x"], map["x" := 1])

  /** Surjective layouts with a stray bit whose quotient is not surjective: the constructor rejects it. */
  lemma StrayQuotientIsRejected()
    ensures STRAY_ONTO.Valid() && PLAIN_ONTO.Valid() && Surjective(STRAY_ONTO) && Surjective(PLAIN_ONTO)
    ensures RightChecked(STRAY_ONTO, PLAIN_ONTO) && LowBasesFit(STRAY_ONTO, PLAIN_ONTO)
      && !DemandMet(STRAY_ONTO, PLAIN_ONTO)
  {
    hide RightBasisFits, RightQuotient, Layout.Valid, Layout.Image, Surjective;
    StrayOntoIsValid();
    PlainOntoIsValid();
    StrayIsOnto();
    PlainIsOnto();
    StrayOntoFits();
    EmptyQuotient(RightQuotient(STRAY_ONTO, PLAIN_ONTO));
  }

  lemma StrayOntoIsValid()
    ensures STRAY_ONTO.Valid() && DimsFit(STRAY_ONTO, PLAIN_ONTO)
  {
    hide Layout.InSize, Layout.OutSize;
    StrayOntoShape();
    PlainOntoShape();
  }

  lemma NamesDiffer()
    ensures "x" != "y"
  {
    assert "x"[0] != "y"[0];
  }

  lemma StrayOntoShape()
    ensures STRAY_ONTO.Valid() && STRAY_ONTO.InSize("r") == 2 && STRAY_ONTO.OutSize("x") == 1
  {
    hide Layout.HasIn, Layout.HasOut, Layout.Basis;
    NamesDiffer();
    OneInputDim(STRAY_ONTO, "r", [{X_BIT}, {Y_BIT}]);
    TwoBitOutput(STRAY_ONTO, "x", "y");
    assert STRAY_ONTO.Basis(Bit("r", 0)) == {X_BIT} && STRAY_ONTO.Basis(Bit("r", 1)) == {Y_BIT};
  }

  lemma PlainOntoShape()
    ensures PLAIN_ONTO.inDims == ["r"] && PLAIN_ONTO.outDims == ["x"]
    ensures forall d :: PLAIN_ONTO.InSize(d) == if d == "r" then 2 else 0
    ensures forall d :: PLAIN_ONTO.OutSize(d) == if d == "x" then 1 else 0
  {
  }

  lemma PlainOntoIsValid()
    ensures PLAIN_ONTO.Valid()
  {
  }

  lemma StrayIsOnto()
    requires STRAY_ONTO.Valid()
    ensures Surjective(STRAY_ONTO)
  {
    hide Layout.Valid, Layout.Image, Layout.OutBits;
    StrayImages();
    forall y | y <= STRAY_ONTO.OutBits()
      ensures InImage(STRAY_ONTO, y)
    {
      OnlyXAndY(y);
    }
  }

  lemma StrayImages()
    requires STRAY_ONTO.Valid()
    ensures InImage(STRAY_ONTO, {}) && InImage(STRAY_ONTO, {X_BIT}) && InImage(STRAY_ONTO, {Y_BIT})
    ensures InImage(STRAY_ONTO, {X_BIT, Y_BIT})
  {
    hide Layout.Valid, InImage, Layout.Basis;
    StrayBases();
    ImagesOfTwo(STRAY_ONTO, Bit("r", 0), Bit("r", 1));
    assert Xor({X_BIT}, {Y_BIT}) == {X_BIT, Y_BIT};
  }

  lemma StrayBases()
    ensures STRAY_ONTO.Basis(Bit("r", 0)) == {X_BIT} && STRAY_ONTO.Basis(Bit("r", 1)) == {Y_BIT} && X_BIT != Y_BIT
  {
    assert X_BIT.dim[0] != Y_BIT.dim[0];
  }

  lemma OnlyXAndY(y: set<Bit>)
    requires y <= STRAY_ONTO.OutBits()
    ensures y == {} || y == {X_BIT} || y == {Y_BIT} || y == {X_BIT, Y_BIT}
  {
    assert y <= {X_BIT, Y_BIT};
  }

  lemma PlainIsOnto()
    requires PLAIN_ONTO.Valid()
    ensures Surjective(PLAIN_ONTO)
  {
    hide Layout.Valid, Layout.Image;
    forall y | y <= PLAIN_ONTO.OutBits()
      ensures InImage(PLAIN_ONTO, y)
    {
      assert y <= {X_BIT};
      ImageNothing(PLAIN_ONTO);
      ImageUnit(PLAIN_ONTO, Bit("r", 0));
      assert y == {} || y == {X_BIT};
    }
  }

  lemma StrayOntoFits()
    requires DimsFit(STRAY_ONTO, PLAIN_ONTO)
    ensures RightChecked(STRAY_ONTO, PLAIN_ONTO) && LowBasesFit(STRAY_ONTO, PLAIN_ONTO)
  {
    hide RightQuotient, Raised;
    var q := RightQuotient(STRAY_ONTO, PLAIN_ONTO);
    forall d, i: nat | i < PLAIN_ONTO.InSize(d)
      ensures RightBasisFits(STRAY_ONTO, PLAIN_ONTO, d, i)
    {
      RightBasisFitsMeans(STRAY_ONTO, PLAIN_ONTO, d, i);
      assert d == "r" && i < 2 && q.InSize(d) == 0 && q.OutSize("x") == 0;
      RaisedByNothing(q);
      RaisedEmpty(q);
      if i == 0 {
        assert OnDimsOf(STRAY_ONTO.Basis(Bit("r", 0)), PLAIN_ONTO) == {X_BIT};
      } else {
        assert OnDimsOf(STRAY_ONTO.Basis(Bit("r", 1)), PLAIN_ONTO) == {};
      }
    }
  }

  lemma RaisedEmpty(q: Layout)
    ensures Raised({}, q) == {}
  {
  }

  /** A layout without input bits reaches no output bit. */
  lemma EmptyQuotient(q: Layout)
    requires q.InSize("r") == 0 && q.bases.Keys == {"r"} && q.OutSize("y") == 1
    ensures !Surjective(q)
  {
    forall x
      ensures q.Image(x) == {}
    {
      assert forall c :: !q.HasIn(c);
      assert forall b :: q.Reaching(b) == {};
    }
    assert {Y_BIT} <= q.OutBits() && !InImage(q, {Y_BIT});
  }
}
