/** When inversion succeeds, and when it chooses the smallest offset. */
module InversionGuarantees {
  import opened Basics
  import opened GF2
  import opened LinearSolve
  import opened Layouts
  import opened LayoutMatrix
  import opened LayoutInversion

  // ---------------------------------------------------------------- the order of input bits

  ghost predicate ListedBefore(dims: seq<Dim>, d: Dim, e: Dim) {
    exists i, j :: 0 <= i < j < |dims| && dims[i] == d && dims[j] == e
  }

  /** Bit b is below bit c when all inputs are read as one number, the first dimension lowest. */
  ghost predicate Precedes(dims: seq<Dim>, b: Bit, c: Bit) {
    if b.dim == c.dim then b.pos < c.pos else ListedBefore(dims, b.dim, c.dim)
  }

  lemma {:induction false} PrefixGrows(L: Layout, m: nat, n: nat)
    requires L.Valid() && m < n <= |L.inDims|
    ensures |BitList(L.inDims[..m], InSizes(L))| + L.InSize(L.inDims[m]) <= |BitList(L.inDims[..n], InSizes(L))|
  {
    hide Layout.InSize, InSizes, BitList, Layout.Valid;
    BitListPrefix(L, n - 1);
    if m < n - 1 {
      PrefixGrows(L, m, n - 1);
    }
  }

  /** The list of input bits is in this order. */
  lemma ListOrder(L: Layout, i: nat, j: nat)
    requires L.Valid() && i < |InList(L)| && j < |InList(L)|
    ensures i < j <==> Precedes(L.inDims, InList(L)[i], InList(L)[j])
  {
    hide InList, BitList, InSizes, Layout.InSize;
    var b, c := InList(L)[i], InList(L)[j];
    InListLists(L);
    assert b in InList(L) && c in InList(L);
    var m, k := PlaceInList(L, b);
    var n, l := PlaceInList(L, c);
    assert i == k && j == l;
    if m < n {
      PrefixGrows(L, m, n);
      assert ListedBefore(L.inDims, b.dim, c.dim);
    } else if n < m {
      PrefixGrows(L, n, m);
      NotListedBefore(L.inDims, n, m);
    }
  }

  lemma NotListedBefore(dims: seq<Dim>, n: nat, m: nat)
    requires NoDup(dims) && n < m < |dims|
    ensures dims[m] != dims[n] && !ListedBefore(dims, dims[m], dims[n])
  {
  }

  /** v, made of bits below c, has the image of c. */
  ghost predicate StandsFor(L: Layout, v: set<Bit>, c: Bit) {
    (forall b :: b in v ==> L.HasIn(b) && Precedes(L.inDims, b, c)) && L.Image(v) == L.Basis(c)
  }

  lemma ComboOfPrefix(cols: seq<set<nat>>, x: set<nat>, k: nat)
    requires k <= |cols| && Below(x, k)
    ensures Combo(cols, x) == Combo(cols[..k], x)
  {
    assert cols == cols[..k] + cols[k..];
    ComboConcat(cols[..k], cols[k..], x);
    ComboZero(cols[k..], set b | b in x && b >= k :: b - k);
  }

  /** A bit is free exactly when lower bits can stand for it. */
  lemma FreeBitMeans(L: Layout, c: Bit)
    requires L.Valid()
    ensures IsFreeBit(L, c) <==> L.HasIn(c) && exists v :: StandsFor(L, v, c)
  {
    hide Layout.Valid, Layout.Image, Combo, InList, OutList, Flat, Unflat, Precedes;
    InListLists(L);
    if IsFreeBit(L, c) {
      var v := FreeBitStandIn(L, c);
    }
    if L.HasIn(c) && exists v :: StandsFor(L, v, c) {
      var v :| StandsFor(L, v, c);
      StandInMakesFree(L, v, c);
    }
  }

  lemma FreeBitStandIn(L: Layout, c: Bit) returns (v: set<Bit>)
    requires L.Valid() && IsFreeBit(L, c)
    ensures StandsFor(L, v, c)
  {
    hide Layout.Valid, Layout.Image, Combo, InList, OutList, Flat, Unflat, Precedes, Layout.Basis, Layout.HasIn;
    var ins, outs := InList(L), OutList(L);
    var cols := Columns(L, ins, outs);
    InListLists(L);
    OutListLists(L);
    var k: nat :| k < |ins| && ins[k] == c && IsFree(cols, k);
    var x :| Combo(cols[..k], x) == cols[k];
    var y := set b | b in x && b < k;
    ComboAgree(cols[..k], x, y);
    ComboOfPrefix(cols, y, k);
    v := Unflat(y, ins);
    FlatUnflat(y, ins);
    ComboIsImage(L, ins, outs, v);
    BasisListed(L, c);
    FlatInjective(L.Image(v), L.Basis(c), outs);
    forall b | b in v
      ensures L.HasIn(b) && Precedes(L.inDims, b, c)
    {
      var j: nat :| j in y && j < |ins| && ins[j] == b;
      assert b in ins;
      ListOrder(L, j, k);
    }
  }

  lemma BasisListed(L: Layout, c: Bit)
    requires L.Valid() && Lists(OutList(L), L.OutBits())
    ensures forall b :: b in L.Basis(c) ==> b in OutList(L)
    ensures forall x, b :: b in L.Image(x) ==> b in OutList(L)
  {
    hide OutList;
  }

  lemma StandInMakesFree(L: Layout, v: set<Bit>, c: Bit)
    requires L.Valid() && L.HasIn(c) && StandsFor(L, v, c)
    ensures IsFreeBit(L, c)
  {
    hide Layout.Valid, Layout.Image, Combo, InList, OutList, Unflat, Precedes, Layout.Basis, Layout.HasIn;
    var ins, outs := InList(L), OutList(L);
    var cols := Columns(L, ins, outs);
    InListLists(L);
    OutListLists(L);
    assert c in ins;
    var k: nat :| k < |ins| && ins[k] == c;
    var x := Flat(v, ins);
    forall j | j in x
      ensures j < k
    {
      ListOrder(L, j, k);
    }
    ComboIsImage(L, ins, outs, v);
    ComboOfPrefix(cols, x, k);
    assert InSpan(cols[k], cols[..k]);
  }

  // ---------------------------------------------------------------- smallest offsets

  /** An input of L read as one number. */
  ghost function Offset(L: Layout, v: set<Bit>): nat {
    Number(Flat(v, InList(L)), 0, |InList(L)|)
  }

  /** v is the smallest input of L with output w. */
  ghost predicate IsSmallest(L: Layout, w: set<Bit>, v: set<Bit>) {
    && v <= L.InBits() && L.Image(v) == w
    && forall u :: u <= L.InBits() && L.Image(u) == w ==> Offset(L, v) <= Offset(L, u)
  }

  lemma SameOutput(L: Layout, u: set<Bit>, v: set<Bit>)
    requires L.Valid()
    ensures var cols := Columns(L, InList(L), OutList(L));
      Combo(cols, Flat(u, InList(L))) == Combo(cols, Flat(v, InList(L))) <==> L.Image(u) == L.Image(v)
  {
    hide Layout.Valid, Combo, InList, OutList, Flat, Layout.Image;
    InListLists(L);
    OutListLists(L);
    ComboIsImage(L, InList(L), OutList(L), u);
    ComboIsImage(L, InList(L), OutList(L), v);
    BasisListed(L, Bit("", 0));
    if Flat(L.Image(u), OutList(L)) == Flat(L.Image(v), OutList(L)) {
      FlatInjective(L.Image(u), L.Image(v), OutList(L));
    }
  }

  /** The input that leaves the free bits zero is the smallest one, and the only one. */
  lemma LeastIsSmallest(L: Layout, w: set<Bit>, v: set<Bit>)
    requires L.Valid()
    ensures IsLeastInput(L, w, v) <==> IsSmallest(L, w, v)
  {
    hide Layout.Valid, Combo, InList, OutList, Flat, Unflat, Layout.Image, IsFree, Number, IsReducedInput;
    if v <= L.InBits() && L.Image(v) == w {
      var ins := InList(L);
      var cols := Columns(L, ins, OutList(L));
      var x := Flat(v, ins);
      FlatBelow(v, ins);
      ReducedIsSmallest(cols, x, x);
      NoFreeFlat(L, v);
      if IsSmallestInput(cols, x, x) {
        forall u | u <= L.InBits() && L.Image(u) == w
          ensures Offset(L, v) <= Offset(L, u)
        {
          SameOutput(L, u, v);
          FlatBelow(u, ins);
        }
      }
      if IsSmallest(L, w, v) {
        SmallestFlat(L, v);
      }
    }
  }

  lemma NoFreeFlat(L: Layout, v: set<Bit>)
    requires L.Valid() && v <= L.InBits()
    ensures var cols, x := Columns(L, InList(L), OutList(L)), Flat(v, InList(L));
      IsReducedInput(cols, x, x) <==> forall c :: c in v ==> !IsFreeBit(L, c)
  {
    hide Layout.Valid, Combo, InList, OutList, IsFree;
    var ins := InList(L);
    InListLists(L);
    FlatBelow(v, ins);
    forall c | c in v
      ensures c in ins
    {
    }
  }

  lemma SmallestFlat(L: Layout, v: set<Bit>)
    requires L.Valid() && IsSmallest(L, L.Image(v), v)
    ensures var cols, x := Columns(L, InList(L), OutList(L)), Flat(v, InList(L));
      IsSmallestInput(cols, x, x)
  {
    hide Layout.Valid, Combo, InList, OutList, Flat, Unflat, Layout.Image, Number;
    var ins := InList(L);
    var cols, x := Columns(L, ins, OutList(L)), Flat(v, ins);
    InListLists(L);
    FlatBelow(v, ins);
    forall z | Below(z, |cols|) && Combo(cols, z) == Combo(cols, x)
      ensures Number(x, 0, |cols|) <= Number(z, 0, |cols|)
    {
      var u := Unflat(z, ins);
      FlatUnflat(z, ins);
      UnflatListed(z, ins);
      SameOutput(L, u, v);
      assert u <= L.InBits();
    }
  }

  lemma {:induction false} NonIdentityOrder(dims: seq<Dim>, A: Layout, B: Layout, d: Dim, e: Dim)
    requires NoDup(dims) && ListedBefore(NonIdentity(dims, A, B), d, e)
    ensures ListedBefore(dims, d, e)
  {
    hide IsIdentityDim;
    var n := |dims| - 1;
    var init, rest := dims[..n], NonIdentity(dims[..n], A, B);
    NonIdentityMembers(init, A, B);
    var r := NonIdentity(dims, A, B);
    var i, j :| 0 <= i < j < |r| && r[i] == d && r[j] == e;
    assert r[i] == rest[i] && d in rest;
    if j < |rest| {
      assert ListedBefore(rest, d, e);
      NonIdentityOrder(init, A, B, d, e);
      var k, l :| 0 <= k < l < |init| && init[k] == d && init[l] == e;
      assert dims[k] == d && dims[l] == e;
    } else {
      var k :| 0 <= k < |init| && init[k] == d;
      assert dims[k] == d && dims[n] == e;
    }
  }

  /** A bit that is free among the remaining dimensions is free among all. */
  lemma FreeAmongFewer(A: Layout, B: Layout, c: Bit)
    requires A.Valid() && IsFreeBit(ReducedLayout(A, A, B), c)
    ensures IsFreeBit(A, c)
  {
    hide Layout.Valid, Layout.Image, IsFreeBit, IsIdentityDim, NonIdentity, Layout.Basis;
    var R := ReducedLayout(A, A, B);
    ReducedValid(A, A, B);
    FreeBitMeans(R, c);
    FreeBitMeans(A, c);
    var v :| StandsFor(R, v, c);
    ReducedImage(A, B, v);
    ValidDims(A);
    forall b | b in v
      ensures A.HasIn(b) && Precedes(A.inDims, b, c)
    {
      if b.dim != c.dim {
        NonIdentityOrder(A.inDims, A, B, b.dim, c.dim);
      }
    }
    assert StandsFor(A, v, c);
  }

  lemma ReducedImage(A: Layout, B: Layout, v: set<Bit>)
    requires A.Valid() && forall b :: b in v ==> ReducedLayout(A, A, B).HasIn(b)
    ensures ReducedLayout(A, A, B).Image(v) == A.Image(v)
  {
    hide Layout.Image, NonIdentity, IsIdentityDim, Layout.Valid;
    ValidDims(A);
    NonIdentityMembers(A.inDims, A, B);
    SubLayoutImage(A, NonIdentity(A.inDims, A, B), v);
  }

  /** X gives every input of B the smallest offset of A with the same output. */
  ghost predicate ChoosesSmallest(X: Layout, A: Layout, B: Layout) {
    forall x :: x <= B.InBits() ==> IsSmallest(A, B.Image(x), X.Image(x))
  }

  /**
   * The smallest offsets agree with the identity shortcut: no bit of an identity dimension is free, and the
   * smallest offset of every other basis vector of B lies in the remaining dimensions.
   */
  ghost predicate ShortcutIsSmallest(A: Layout, B: Layout) {
    && (forall c: Bit :: B.HasIn(c) && IsIdentityDim(A, B, c.dim) ==> !IsFreeBit(A, c))
    && forall c: Bit :: B.HasIn(c) && !IsIdentityDim(A, B, c.dim) ==> SmallestIsLeft(A, B, c)
  }

  ghost predicate SmallestIsLeft(A: Layout, B: Layout, c: Bit) {
    exists v :: v <= ReducedLayout(A, A, B).InBits() && IsSmallest(A, B.Basis(c), v)
  }

  /** What an image is made of. */
  lemma ImageUsesBasis(X: Layout, x: set<Bit>, b: Bit)
    requires b in X.Image(x)
    ensures exists c :: c in x && X.HasIn(c) && b in X.Basis(c)
  {
    assert x * X.Reaching(b) != {};
    var c :| c in x * X.Reaching(b);
  }

  /** The inversion chooses the smallest offsets exactly when the free bits of A occur in none of its basis vectors. */
  lemma SmallestIffNoFreeBits(X: Layout, A: Layout, B: Layout)
    requires A.Valid() && B.Valid() && IsInversion(X, A, B)
    ensures ChoosesSmallest(X, A, B) <==> forall c, b :: B.HasIn(c) && b in X.Basis(c) ==> !IsFreeBit(A, b)
  {
    hide Layout.Valid, Layout.Image, IsFreeBit, IsIdentityDim, ReducedLayout, IsSmallest, Layout.Basis;
    if ChoosesSmallest(X, A, B) {
      forall c | B.HasIn(c)
        ensures forall b :: b in X.Basis(c) ==> !IsFreeBit(A, b)
      {
        ImageUnit(X, c);
        LeastIsSmallest(A, B.Image({c}), X.Image({c}));
      }
    }
    if forall c, b :: B.HasIn(c) && b in X.Basis(c) ==> !IsFreeBit(A, b) {
      forall x | x <= B.InBits()
        ensures IsSmallest(A, B.Image(x), X.Image(x))
      {
        forall b | b in X.Image(x)
          ensures !IsFreeBit(A, b)
        {
          ImageUsesBasis(X, x, b);
        }
        ImageInRange(X, x);
        LeastIsSmallest(A, B.Image(x), X.Image(x));
      }
    }
  }

  lemma ImageInRange(X: Layout, x: set<Bit>)
    ensures X.Image(x) <= X.OutBits()
  {
  }

  lemma LeastInputUnique(L: Layout, w: set<Bit>, u: set<Bit>, v: set<Bit>)
    requires L.Valid() && IsLeastInput(L, w, u) && IsLeastInput(L, w, v)
    ensures u == v
  {
    hide Layout.Valid, Layout.Image, Combo, InList, OutList, IsFree, IsReducedInput;
    var ins := InList(L);
    InListLists(L);
    NoFreeFlat(L, u);
    NoFreeFlat(L, v);
    SameOutput(L, u, v);
    UniqueFlat(Columns(L, ins, OutList(L)), Flat(u, ins), Flat(v, ins));
    FlatInjective(u, v, ins);
  }

  lemma UniqueFlat(cols: seq<set<nat>>, x: set<nat>, y: set<nat>)
    requires IsReducedInput(cols, x, x) && IsReducedInput(cols, y, y) && Combo(cols, x) == Combo(cols, y)
    ensures x == y
  {
    hide IsFree, Combo;
    FreeZeroInputsAreUnique(cols, x, y);
  }

  /** The basis vector chosen for a bit outside the identity dimensions is the smallest exactly when that lies there. */
  lemma RemainingIsSmallest(X: Layout, A: Layout, B: Layout, c: Bit)
    requires A.Valid() && B.Valid() && IsInversion(X, A, B) && B.HasIn(c) && !IsIdentityDim(A, B, c.dim)
    ensures SmallestIsLeft(A, B, c) <==> forall b :: b in X.Basis(c) ==> !IsFreeBit(A, b)
  {
    hide Layout.Valid, Layout.Image, IsFreeBit, IsIdentityDim, ReducedLayout, IsSmallest;
    var R, w := ReducedLayout(A, A, B), B.Basis(c);
    ReducedValid(A, A, B);
    ReducedValid(B, A, B);
    assert IsLeastInput(R, w, X.Basis(c));
    LeastInputOfReduced(A, B, w, X.Basis(c));
    LeastIsSmallest(A, w, X.Basis(c));
    if SmallestIsLeft(A, B, c) {
      var v :| v <= R.InBits() && IsSmallest(A, w, v);
      LeastIsSmallest(A, w, v);
      ReducedImage(A, B, v);
      forall b | b in v
        ensures !IsFreeBit(R, b)
      {
        if IsFreeBit(R, b) {
          FreeAmongFewer(A, B, b);
        }
      }
      LeastInputUnique(R, w, v, X.Basis(c));
    }
  }

  /** When the inversion chooses the smallest offset for every input, in terms of the two layouts. */
  lemma ChoosesSmallestIff(X: Layout, A: Layout, B: Layout)
    requires A.Valid() && B.Valid() && IsInversion(X, A, B)
    ensures ChoosesSmallest(X, A, B) <==> ShortcutIsSmallest(A, B)
  {
    hide ChoosesSmallest, IsFreeBit, IsIdentityDim, IsSmallest, SmallestIsLeft, Layout.Valid, Layout.Image;
    SmallestIffNoFreeBits(X, A, B);
    forall c: Bit | B.HasIn(c) && !IsIdentityDim(A, B, c.dim)
      ensures SmallestIsLeft(A, B, c) <==> forall b :: b in X.Basis(c) ==> !IsFreeBit(A, b)
    {
      RemainingIsSmallest(X, A, B, c);
    }
    forall c: Bit | B.HasIn(c) && IsIdentityDim(A, B, c.dim)
      ensures !IsFreeBit(A, c) <==> forall b :: b in X.Basis(c) ==> !IsFreeBit(A, b)
    {
      assert X.Basis(c) == {c};
    }
  }

  function Repeated(d: Dim, x: Dim): Layout {
    Layout([d], map[d := [{Bit(x, 0)}, {Bit(x, 0)}]], [x], map[x := 1])
  }

  /** An identity dimension with a repeated basis vector is kept as it is, although half of it would be enough. */
  lemma RepeatedVectorIsNotSmallest(d: Dim, x: Dim)
    ensures var L := Repeated(d, x);
      L.Valid() && Surjective(L) && Solvable(L, L) && !ShortcutIsSmallest(L, L)
  {
    var L := Repeated(d, x);
    RepeatedShape(d, x);
    assert IsIdentityDim(L, L, d);
    assert L.inDims[..0] == [];
    assert NonIdentity(L.inDims, L, L) == [];
    hide Repeated, Layout.Image, Layout.Valid, IsFreeBit;
    ReducedValid(L, L, L);
    ImageUnit(L, Bit(d, 0));
    assert StandsFor(L, {Bit(d, 0)}, Bit(d, 1));
    FreeBitMeans(L, Bit(d, 1));
    assert IsFreeBit(L, Bit(d, 1)) && L.HasIn(Bit(d, 1));
  }

  lemma RepeatedShape(d: Dim, x: Dim)
    ensures var L := Repeated(d, x);
      && L.Valid() && Surjective(L) && L.inDims == [d]
      && (forall c: Bit :: L.HasIn(c) <==> c.dim == d && c.pos < 2)
      && L.Basis(Bit(d, 0)) == {Bit(x, 0)} == L.Basis(Bit(d, 1))
  {
    var L := Repeated(d, x);
    OneInputDim(L, d, [{Bit(x, 0)}, {Bit(x, 0)}]);
    OneBitOutput(L, x);
    hide Repeated, Layout.Image, Layout.HasIn, Layout.HasOut, Layout.Basis, InImage;
    ImagesOfTwo(L, Bit(d, 0), Bit(d, 1));
    forall w | w <= L.OutBits()
      ensures InImage(L, w)
    {
      assert w <= {Bit(x, 0)};
      assert w == {} || w == {Bit(x, 0)};
    }
  }

  // ---------------------------------------------------------------- when inversion succeeds

  /** Only one of the layouts has a dimension left beside the identity dimensions. */
  ghost predicate OneSideIsLeft(A: Layout, B: Layout) {
    (exists d :: d in A.inDims && !IsIdentityDim(A, B, d)) != (exists d :: d in B.inDims && !IsIdentityDim(A, B, d))
  }

  /** v is an input of A outside the identity dimensions. */
  ghost predicate IsRemainingInput(A: Layout, B: Layout, v: set<Bit>) {
    forall b: Bit :: b in v ==> A.HasIn(b) && !IsIdentityDim(A, B, b.dim)
  }

  /** The remaining inputs of A reach every basis vector of B outside the identity dimensions. */
  ghost predicate RemainingReach(A: Layout, B: Layout) {
    forall c: Bit :: B.HasIn(c) && !IsIdentityDim(A, B, c.dim) ==>
      exists v :: IsRemainingInput(A, B, v) && A.Image(v) == B.Basis(c)
  }

  /** Inversion succeeds exactly when the dimensions left beside the identity dimensions fit. */
  lemma SucceedsIff(A: Layout, B: Layout)
    requires A.Valid() && B.Valid()
    ensures Solvable(A, B) <==> !OneSideIsLeft(A, B) && RemainingReach(A, B)
  {
    hide Layout.Image, IsIdentityDim, NonIdentity, Layout.Valid;
    ReducedValid(A, A, B);
    ReducedValid(B, A, B);
    LeftOver(A, A, B);
    LeftOver(B, A, B);
    forall c: Bit | B.HasIn(c) && !IsIdentityDim(A, B, c.dim)
      ensures InImage(ReducedLayout(A, A, B), B.Basis(c)) <==>
              exists v :: IsRemainingInput(A, B, v) && A.Image(v) == B.Basis(c)
    {
      ReachedByRemaining(A, B, B.Basis(c));
    }
  }

  lemma LeftOver(L: Layout, A: Layout, B: Layout)
    requires L.Valid()
    ensures NonIdentity(L.inDims, A, B) != [] <==> exists d :: d in L.inDims && !IsIdentityDim(A, B, d)
  {
    hide IsIdentityDim, NonIdentity;
    NonIdentityMembers(L.inDims, A, B);
    var r := NonIdentity(L.inDims, A, B);
    if r != [] {
      assert r[0] in r;
    }
  }

  lemma ReachedByRemaining(A: Layout, B: Layout, w: set<Bit>)
    requires A.Valid()
    ensures InImage(ReducedLayout(A, A, B), w) <==> exists v :: IsRemainingInput(A, B, v) && A.Image(v) == w
  {
    hide Layout.Image, IsIdentityDim, Layout.Valid, ReducedLayout;
    var R := ReducedLayout(A, A, B);
    ReducedValid(A, A, B);
    if u :| R.Image(u) == w {
      var v := u * R.InBits();
      ImageAgree(R, u, v);
      ReducedImage(A, B, v);
      assert IsRemainingInput(A, B, v) && A.Image(v) == w;
    }
    if v :| IsRemainingInput(A, B, v) && A.Image(v) == w {
      ReducedImage(A, B, v);
    }
  }

  /** X solves A . X = B. */
  ghost predicate IsSolution(X: Layout, A: Layout, B: Layout) {
    && X.Valid() && X.inDims == B.inDims && X.outDims == A.inDims
    && (forall d :: X.InSize(d) == B.InSize(d) && X.OutSize(d) == A.InSize(d))
    && forall x :: A.Image(X.Image(x)) == B.Image(x)
  }

  ghost function InputFor(A: Layout, w: set<Bit>): (v: set<Bit>)
    requires InImage(A, w)
    ensures A.Image(v) == w && v <= A.InBits()
  {
    var u :| A.Image(u) == w;
    ImageAgree(A, u, u * A.InBits());
    u * A.InBits()
  }

  /** The equation has a solution exactly when A reaches every basis vector of B. */
  lemma SolutionIff(A: Layout, B: Layout)
    requires A.Valid() && B.Valid()
    ensures (exists X :: IsSolution(X, A, B)) <==> forall c :: B.HasIn(c) ==> InImage(A, B.Basis(c))
  {
    hide Layout.Image, Layout.Valid;
    if X :| IsSolution(X, A, B) {
      forall c | B.HasIn(c)
        ensures InImage(A, B.Basis(c))
      {
        ImageUnit(B, c);
        assert A.Image(X.Image({c})) == B.Image({c});
      }
    }
    if forall c :: B.HasIn(c) ==> InImage(A, B.Basis(c)) {
      var X := Solution(A, B);
    }
  }

  lemma Solution(A: Layout, B: Layout) returns (X: Layout)
    requires A.Valid() && B.Valid() && forall c :: B.HasIn(c) ==> InImage(A, B.Basis(c))
    ensures IsSolution(X, A, B)
  {
    hide Layout.Image, InImage;
    X := Layout(B.inDims,
                map d | d in B.bases ::
                  seq(B.InSize(d), i requires 0 <= i < B.InSize(d) => InputFor(A, B.Basis(Bit(d, i)))),
                A.inDims, InSizes(A));
    forall c
      ensures B.HasIn(c) ==> X.Basis(c) == InputFor(A, B.Basis(c))
    {
    }
    SolutionIsValid(X, A, B);
    hide Layout.Valid, InputFor;
    forall c
      ensures A.Image(X.Basis(c)) == B.Basis(c)
    {
      if !B.HasIn(c) {
        ImageNothing(A);
        assert X.Basis(c) == {};
      }
    }
    forall x
      ensures A.Image(X.Image(x)) == B.Image(x)
    {
      SameOnUnits(X, A, B, x);
    }
  }

  lemma SolutionIsValid(X: Layout, A: Layout, B: Layout)
    requires A.Valid() && B.Valid() && X.inDims == B.inDims && X.bases.Keys == B.bases.Keys
    requires X.outDims == A.inDims && X.outSizes == InSizes(A) && forall d :: X.InSize(d) == B.InSize(d)
    requires forall c :: B.HasIn(c) ==> X.Basis(c) <= A.InBits()
    ensures X.Valid() && forall d :: X.OutSize(d) == A.InSize(d)
  {
    forall c, b | X.HasIn(c) && b in X.Basis(c)
      ensures X.HasOut(b)
    {
      assert b in A.InBits();
    }
  }

  lemma OutBitsFit(A: Layout, B: Layout, w: set<Bit>)
    requires w <= B.OutBits() && forall d :: B.OutSize(d) <= A.OutSize(d)
    ensures w <= A.OutBits()
  {
  }

  /** What is demanded of the layouts is enough for a solution. */
  lemma SurjectiveHasSolution(A: Layout, B: Layout)
    requires A.Valid() && B.Valid() && Surjective(A) && forall d :: B.OutSize(d) <= A.OutSize(d)
    ensures exists X :: IsSolution(X, A, B)
  {
    hide InImage, IsSolution, Layout.Valid, Layout.OutSize;
    SolutionIff(A, B);
    forall c | B.HasIn(c)
      ensures InImage(A, B.Basis(c))
    {
      BasisInRange(B, c);
      OutBitsFit(A, B, B.Basis(c));
    }
  }

  /** No basis vector outside the identity dimensions shares an output bit with one inside. */
  ghost predicate KeepsClear(A: Layout, B: Layout) {
    forall c: Bit, c': Bit ::
      A.HasIn(c) && IsIdentityDim(A, B, c.dim) && !IsIdentityDim(A, B, c'.dim) ==>
      A.Basis(c) !! A.Basis(c') && A.Basis(c) !! B.Basis(c')
  }

  /** With the check that the source leaves open, a surjective A reaches what is left of B. */
  lemma ClearShortcutIsSafe(A: Layout, B: Layout)
    requires A.Valid() && B.Valid() && Surjective(A) && forall d :: B.OutSize(d) <= A.OutSize(d)
    requires KeepsClear(A, B)
    ensures RemainingReach(A, B)
  {
    hide Layout.Image, IsIdentityDim, Layout.Valid, InImage, Layout.OutSize, KeepsClear;
    forall c: Bit | B.HasIn(c) && !IsIdentityDim(A, B, c.dim)
      ensures exists v :: IsRemainingInput(A, B, v) && A.Image(v) == B.Basis(c)
    {
      BasisInRange(B, c);
      OutBitsFit(A, B, B.Basis(c));
      var u := InputFor(A, B.Basis(c));
      var v := set b: Bit | b in u && !IsIdentityDim(A, B, b.dim);
      RemainingPart(A, B, c, u, v);
    }
  }

  lemma RemainingPart(A: Layout, B: Layout, c: Bit, u: set<Bit>, v: set<Bit>)
    requires A.Valid() && KeepsClear(A, B) && !IsIdentityDim(A, B, c.dim)
    requires u <= A.InBits() && A.Image(u) == B.Basis(c) && v == set b: Bit | b in u && !IsIdentityDim(A, B, b.dim)
    ensures A.Image(v) == B.Basis(c)
  {
    hide Layout.Image, IsIdentityDim, Layout.Valid, KeepsClear, Layout.Basis, IsRemainingInput, Xor;
    var ids := u - v;
    SplitInput(A, B, u, v);
    ImageXor(A, ids, v);
    forall b
      ensures b in A.Image(ids) ==> b !in A.Image(v) && b !in B.Basis(c)
    {
      if b in A.Image(ids) {
        InsideOnly(A, B, c, ids, v, b);
      }
    }
    OnlyOneSide(A.Image(ids), A.Image(v), B.Basis(c));
  }

  lemma SplitInput(A: Layout, B: Layout, u: set<Bit>, v: set<Bit>)
    requires u <= A.InBits() && v == set b: Bit | b in u && !IsIdentityDim(A, B, b.dim)
    ensures Xor(u - v, v) == u && IsRemainingInput(A, B, v)
    ensures forall i: Bit :: i in u - v ==> IsIdentityDim(A, B, i.dim)
  {
    hide IsIdentityDim, Layout.HasIn;
  }

  lemma InsideOnly(A: Layout, B: Layout, c: Bit, ids: set<Bit>, v: set<Bit>, b: Bit)
    requires KeepsClear(A, B) && !IsIdentityDim(A, B, c.dim) && b in A.Image(ids)
    requires (forall i: Bit :: i in ids ==> IsIdentityDim(A, B, i.dim)) && IsRemainingInput(A, B, v)
    ensures b !in A.Image(v) && b !in B.Basis(c)
  {
    hide Layout.Image, IsIdentityDim, Layout.Basis, KeepsClear, Layout.HasIn;
    ImageUsesBasis(A, ids, b);
    var i :| i in ids && A.HasIn(i) && b in A.Basis(i);
    StaysClear(A, B, i, c);
    if b in A.Image(v) {
      ImageUsesBasis(A, v, b);
      var k :| k in v && A.HasIn(k) && b in A.Basis(k);
      StaysClear(A, B, i, k);
    }
  }

  lemma StaysClear(A: Layout, B: Layout, c: Bit, c': Bit)
    requires KeepsClear(A, B) && A.HasIn(c) && IsIdentityDim(A, B, c.dim) && !IsIdentityDim(A, B, c'.dim)
    ensures A.Basis(c) !! A.Basis(c') && A.Basis(c) !! B.Basis(c')
  {
    hide IsIdentityDim, Layout.Basis, Layout.HasIn;
  }

  lemma OnlyOneSide(s: set<Bit>, t: set<Bit>, w: set<Bit>)
    requires Xor(s, t) == w && forall b :: b in s ==> b !in t && b !in w
    ensures t == w
  {
    assert forall b :: b in s ==> b in Xor(s, t);
    assert s == {};
  }

  /**
   * Layouts that meet all demands and whose equation has a solution, but not after dimension d is taken out:
   * p needs what only d reaches.
   */
  lemma ShortcutLosesSolution(d: Dim, o: Dim, p: Dim, x: Dim, y: Dim)
    requires d != o && d != p && o != p && x != y
    ensures var A := TwoByTwo([d, o], d, o, x, y);
      var B := Layout([d, p], map[d := [{Bit(x, 0)}], p := [{Bit(x, 0)}]], [x, y], map[x := 1, y := 1]);
      && A.Valid() && B.Valid() && Surjective(A) && (forall e :: B.OutSize(e) == A.OutSize(e))
      && (exists X :: IsSolution(X, A, B)) && !OneSideIsLeft(A, B) && !Solvable(A, B)
  {
    var A := TwoByTwo([d, o], d, o, x, y);
    var B := Layout([d, p], map[d := [{Bit(x, 0)}], p := [{Bit(x, 0)}]], [x, y], map[x := 1, y := 1]);
    TwoByTwoShape([d, o], d, o, x, y);
    TwoByTwoSurjective([d, o], d, o, x, y);
    TwoInputDims(B, d, p, {Bit(x, 0)}, {Bit(x, 0)});
    TwoBitOutput(B, x, y);
    assert IsIdentityDim(A, B, d) && !IsIdentityDim(A, B, o) && !IsIdentityDim(A, B, p);
    assert o in A.inDims && p in B.inDims;
    hide Layout.Image, IsIdentityDim, TwoByTwo, IsSolution, Solvable, Surjective, Layout.Basis;
    SurjectiveHasSolution(A, B);
    SucceedsIff(A, B);
    if RemainingReach(A, B) {
      var v :| IsRemainingInput(A, B, v) && A.Image(v) == B.Basis(Bit(p, 0));
      OnlyOther(A, B, v, d, o, Bit(y, 0), Bit(x, 0));
    }
  }

  lemma OnlyOther(A: Layout, B: Layout, v: set<Bit>, d: Dim, o: Dim, b: Bit, c: Bit)
    requires A.Valid() && A.inDims == [d, o] && A.InSize(o) == 1 && A.Basis(Bit(o, 0)) == {b} && b != c
    requires IsIdentityDim(A, B, d) && IsRemainingInput(A, B, v)
    ensures A.Image(v) != {c}
  {
    hide IsIdentityDim, Layout.Image;
    forall i | i in v
      ensures i == Bit(o, 0)
    {
      assert A.HasIn(i) && i.dim in A.inDims;
    }
    if c in A.Image(v) {
      ImageUsesBasis(A, v, c);
    }
  }

  /** Layouts that meet all demands, solved by the identity; but B has identity dimensions only and A has more. */
  lemma OneSideIsRejected(d: Dim, o: Dim, x: Dim, y: Dim)
    requires d != o && x != y
    ensures var A := TwoByTwo([d, o], d, o, x, y);
      var B := Layout([d], map[d := [{Bit(x, 0)}]], [x, y], map[x := 1, y := 1]);
      && A.Valid() && B.Valid() && Surjective(A) && (forall e :: B.OutSize(e) == A.OutSize(e))
      && (exists X :: IsSolution(X, A, B)) && RemainingReach(A, B) && !Solvable(A, B)
  {
    var A := TwoByTwo([d, o], d, o, x, y);
    var B := Layout([d], map[d := [{Bit(x, 0)}]], [x, y], map[x := 1, y := 1]);
    TwoByTwoShape([d, o], d, o, x, y);
    TwoByTwoSurjective([d, o], d, o, x, y);
    OneInputDim(B, d, [{Bit(x, 0)}]);
    TwoBitOutput(B, x, y);
    assert IsIdentityDim(A, B, d) && !IsIdentityDim(A, B, o);
    assert o in A.inDims;
    hide Layout.Image, IsIdentityDim, TwoByTwo, IsSolution, Solvable, Surjective, Layout.Basis;
    SurjectiveHasSolution(A, B);
    SucceedsIff(A, B);
  }
}
