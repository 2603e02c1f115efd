/** What inversion does with the dimensions that two layouts share, and with the others. */
module SharedDimensions {
  import opened GF2
  import opened LinearSolve
  import opened Layouts
  import opened LayoutMatrix
  import opened LayoutInversion
  import opened InversionGuarantees

  /** The layouts have the same basis vectors in dimension d, and output dimensions of the same sizes. */
  ghost predicate Agree(A: Layout, B: Layout, d: Dim) {
    d in A.bases && d in B.bases && A.bases[d] == B.bases[d] && forall o :: A.OutSize(o) == B.OutSize(o)
  }

  /** Any shared dimension is taken, whatever its vectors: the code looks at the listed output dimensions only. */
  lemma AgreeIff(A: Layout, B: Layout, d: Dim)
    requires A.Valid() && B.Valid()
    ensures IsIdentityDim(A, B, d) <==> Agree(A, B, d)
  {
    forall o | IsIdentityDim(A, B, d)
      ensures A.OutSize(o) == B.OutSize(o)
    {
      if o !in A.outDims + B.outDims {
        assert o !in A.outSizes && o !in B.outSizes;
      }
    }
  }

  // ---------------------------------------------------------------- offsets without the shared dimensions

  lemma HigherBitDecides(L: Layout, u: set<Bit>, v: set<Bit>, c: Bit)
    requires L.Valid() && u <= L.InBits() && v <= L.InBits() && c in v && c !in u
    requires forall b :: b in Xor(u, v) && b != c ==> Precedes(L.inDims, b, c)
    ensures Offset(L, u) < Offset(L, v)
  {
    hide Layout.Valid, InList, Precedes, Number, Layout.HasIn;
    var ins := InList(L);
    InListLists(L);
    assert c in ins;
    var k: nat :| k < |ins| && ins[k] == c;
    forall l | k < l < |ins|
      ensures l in Flat(u, ins) <==> l in Flat(v, ins)
    {
      ListOrder(L, l, k);
      assert ins[l] != c;
    }
    HighestBitDecides(Flat(u, ins), Flat(v, ins), k, 0, |ins|);
  }

  lemma HighestDiffering(L: Layout, u: set<Bit>, v: set<Bit>) returns (c: Bit)
    requires L.Valid() && u <= L.InBits() && v <= L.InBits() && u != v
    ensures c in Xor(u, v) && forall b :: b in Xor(u, v) && b != c ==> Precedes(L.inDims, b, c)
  {
    hide Layout.Valid, InList, Precedes, Layout.HasIn;
    var ins, w := InList(L), Xor(u, v);
    InListLists(L);
    assert w != {} by { assert Xor(u, v) == {} ==> u == v; }
    var b :| b in w;
    assert b in ins;
    var l: nat :| l < |ins| && ins[l] == b;
    assert l in Flat(w, ins);
    var k := HighestIn(Flat(w, ins));
    c := ins[k];
    forall b | b in w && b != c
      ensures Precedes(L.inDims, b, c)
    {
      assert b in ins;
      var l: nat :| l < |ins| && ins[l] == b;
      assert l in Flat(w, ins);
      ListOrder(L, l, k);
    }
  }

  /** The remaining bits keep their order. */
  lemma RemainingOrder(A: Layout, B: Layout, b: Bit, c: Bit)
    requires A.Valid() && b != c && ReducedLayout(A, A, B).HasIn(b) && ReducedLayout(A, A, B).HasIn(c)
    requires Precedes(A.inDims, b, c)
    ensures Precedes(ReducedLayout(A, A, B).inDims, b, c)
  {
    hide Layout.Valid, IsIdentityDim, NonIdentity, Layout.HasIn, Layout.InSize;
    var R := ReducedLayout(A, A, B);
    ReducedValid(A, A, B);
    OneFirst(R, b, c);
    if Precedes(R.inDims, c, b) {
      OneFirst(A, b, c);
      if b.dim != c.dim {
        ValidDims(A);
        NonIdentityOrder(A.inDims, A, B, c.dim, b.dim);
      }
    }
  }

  /** Of two input bits, one comes first. */
  lemma OneFirst(L: Layout, b: Bit, c: Bit)
    requires L.Valid() && L.HasIn(b) && L.HasIn(c) && b != c
    ensures Precedes(L.inDims, b, c) <==> !Precedes(L.inDims, c, b)
  {
    hide Layout.Valid, InList, Precedes, Layout.HasIn;
    var ins := InList(L);
    InListLists(L);
    assert b in ins && c in ins;
    var k: nat :| k < |ins| && ins[k] == b;
    var l: nat :| l < |ins| && ins[l] == c;
    ListOrder(L, k, l);
    ListOrder(L, l, k);
  }

  /** Inputs outside the shared dimensions have the same order with and without these dimensions. */
  lemma SameOrderOfOffsets(A: Layout, B: Layout, u: set<Bit>, v: set<Bit>)
    requires A.Valid() && u <= ReducedLayout(A, A, B).InBits() && v <= ReducedLayout(A, A, B).InBits()
    ensures Offset(A, u) <= Offset(A, v) <==> Offset(ReducedLayout(A, A, B), u) <= Offset(ReducedLayout(A, A, B), v)
  {
    hide Layout.Valid, IsIdentityDim, ReducedLayout, Precedes, Offset, Layout.HasIn;
    var R := ReducedLayout(A, A, B);
    ReducedValid(A, A, B);
    if u != v {
      var c := HighestDiffering(A, u, v);
      forall b | b in Xor(u, v) && b != c
        ensures Precedes(R.inDims, b, c)
      {
        RemainingOrder(A, B, b, c);
      }
      DecideBoth(A, R, u, v, c);
    }
  }

  lemma DecideBoth(A: Layout, R: Layout, u: set<Bit>, v: set<Bit>, c: Bit)
    requires A.Valid() && R.Valid() && u <= R.InBits() <= A.InBits() && v <= R.InBits() && c in Xor(u, v)
    requires forall b :: b in Xor(u, v) && b != c ==> Precedes(A.inDims, b, c) && Precedes(R.inDims, b, c)
    ensures Offset(A, u) < Offset(A, v) <==> Offset(R, u) < Offset(R, v)
    ensures Offset(A, v) < Offset(A, u) <==> Offset(R, v) < Offset(R, u)
  {
    hide Layout.Valid, Precedes, Offset, Layout.HasIn;
    assert Xor(u, v) == Xor(v, u);
    if c in v {
      HigherBitDecides(A, u, v, c);
      HigherBitDecides(R, u, v, c);
    } else {
      HigherBitDecides(A, v, u, c);
      HigherBitDecides(R, v, u, c);
    }
  }

  // ---------------------------------------------------------------- what inversion chooses

  /** v is made of input bits of A in the dimensions on which the layouts do not agree. */
  ghost predicate Outside(A: Layout, B: Layout, v: set<Bit>) {
    forall b: Bit :: b in v ==> A.HasIn(b) && !Agree(A, B, b.dim)
  }

  /** v is the smallest input of A outside the shared dimensions with output w. */
  ghost predicate IsSmallestOutside(A: Layout, B: Layout, w: set<Bit>, v: set<Bit>) {
    && Outside(A, B, v) && A.Image(v) == w
    && forall u :: Outside(A, B, u) && A.Image(u) == w ==> Offset(A, v) <= Offset(A, u)
  }

  lemma OutsideIff(A: Layout, B: Layout, v: set<Bit>)
    requires A.Valid() && B.Valid()
    ensures Outside(A, B, v) <==> v <= ReducedLayout(A, A, B).InBits()
  {
    hide Layout.Valid, IsIdentityDim, ReducedLayout, Agree, Layout.HasIn;
    ReducedValid(A, A, B);
    forall d
      ensures IsIdentityDim(A, B, d) <==> Agree(A, B, d)
    {
      AgreeIff(A, B, d);
    }
    if v <= ReducedLayout(A, A, B).InBits() {
      forall b | b in v
        ensures A.HasIn(b) && !Agree(A, B, b.dim)
      {
        assert b in ReducedLayout(A, A, B).InBits();
      }
    }
  }

  lemma LeastIsSmallestOutside(A: Layout, B: Layout, w: set<Bit>, v: set<Bit>)
    requires A.Valid() && B.Valid()
    ensures IsLeastInput(ReducedLayout(A, A, B), w, v) <==> IsSmallestOutside(A, B, w, v)
  {
    hide Layout.Valid, IsLeastInput, ReducedLayout, Outside, Offset, Layout.Image, Layout.HasIn, IsIdentityDim;
    var R := ReducedLayout(A, A, B);
    ReducedValid(A, A, B);
    LeastIsSmallest(R, w, v);
    OutsideIff(A, B, v);
    if v <= R.InBits() {
      ReducedImage(A, B, v);
      forall u
        ensures Outside(A, B, u) <==> u <= R.InBits()
        ensures u <= R.InBits() ==> R.Image(u) == A.Image(u)
        ensures u <= R.InBits() ==> (Offset(A, v) <= Offset(A, u) <==> Offset(R, v) <= Offset(R, u))
      {
        OutsideIff(A, B, u);
        if u <= R.InBits() {
          ReducedImage(A, B, u);
          SameOrderOfOffsets(A, B, v, u);
        }
      }
    }
  }

  /**
   * X inverts exactly when it solves the equation, keeps every bit of a dimension on which the layouts agree, and
   * sends every other bit to the smallest input of A outside these dimensions.
   */
  lemma InversionIff(X: Layout, A: Layout, B: Layout)
    requires A.Valid() && B.Valid()
    ensures IsInversion(X, A, B) <==>
      && IsSolution(X, A, B)
      && (forall d, i: nat :: d in B.bases && i < |B.bases[d]| && Agree(A, B, d) ==> X.Basis(Bit(d, i)) == {Bit(d, i)})
      && forall d, i: nat :: d in B.bases && i < |B.bases[d]| && !Agree(A, B, d) ==>
           IsSmallestOutside(A, B, B.bases[d][i], X.Basis(Bit(d, i)))
  {
    hide Layout.Valid, IsLeastInput, ReducedLayout, IsSmallestOutside, Layout.Image, IsIdentityDim, Agree;
    ReducedValid(B, A, B);
    forall c: Bit
      ensures IsIdentityDim(A, B, c.dim) <==> Agree(A, B, c.dim)
      ensures IsLeastInput(ReducedLayout(A, A, B), B.Basis(c), X.Basis(c)) <==>
              IsSmallestOutside(A, B, B.Basis(c), X.Basis(c))
    {
      AgreeIff(A, B, c.dim);
      LeastIsSmallestOutside(A, B, B.Basis(c), X.Basis(c));
    }
    forall d, i: nat
      ensures d in B.bases && i < |B.bases[d]| <==> B.HasIn(Bit(d, i))
      ensures B.HasIn(Bit(d, i)) ==> B.bases[d][i] == B.Basis(Bit(d, i))
    {
    }
  }

  /** There is at most one inversion. */
  lemma InversionIsUnique(X: Layout, Y: Layout, A: Layout, B: Layout)
    requires A.Valid() && B.Valid() && IsInversion(X, A, B) && IsInversion(Y, A, B)
    ensures X == Y
  {
    hide Layout.Image, IsLeastInput, ReducedLayout, IsIdentityDim, Layout.Basis, Layout.InSize, Layout.OutSize;
    ReducedValid(A, A, B);
    ReducedValid(B, A, B);
    forall c: Bit | X.HasIn(c)
      ensures X.Basis(c) == Y.Basis(c)
    {
      assert B.HasIn(c);
      if !IsIdentityDim(A, B, c.dim) {
        LeastInputUnique(ReducedLayout(A, A, B), B.Basis(c), X.Basis(c), Y.Basis(c));
      }
    }
    assert X.bases.Keys == Y.bases.Keys && X.outSizes.Keys == Y.outSizes.Keys;
    SameLayout(X, Y);
  }

  // ---------------------------------------------------------------- broadcasting on both sides

  /** The bit of w does not matter for the output. */
  function Broadcast(r: Dim, w: Dim, x: Dim): Layout {
    Layout([r, w], map[r := [{Bit(x, 0)}], w := [{}]], [x], map[x := 1])
  }

  /** A bit that neither layout uses is kept as it is, although zero would do. */
  lemma SharedBroadcastIsKept(r: Dim, w: Dim, x: Dim)
    requires r != w
    ensures var L := Broadcast(r, w, x);
      && L.Valid() && Solvable(L, L) && L.Image({}) == L.Basis(Bit(w, 0))
      && forall X :: IsInversion(X, L, L) ==> X.Basis(Bit(w, 0)) == {Bit(w, 0)}
  {
    var L := Broadcast(r, w, x);
    TwoInputDims(L, r, w, {Bit(x, 0)}, {});
    OneBitOutput(L, x);
    assert Agree(L, L, r) && Agree(L, L, w);
    hide Layout.Image, IsIdentityDim, IsInversion, Solvable;
    AgreeIff(L, L, r);
    AgreeIff(L, L, w);
    SucceedsIff(L, L);
    ImageNothing(L);
    forall X | IsInversion(X, L, L)
      ensures X.Basis(Bit(w, 0)) == {Bit(w, 0)}
    {
      InversionIff(X, L, L);
    }
  }
}
