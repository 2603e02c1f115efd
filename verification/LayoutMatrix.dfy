/** The matrix of a layout: its bits listed in order, its basis vectors as columns, and whether it is surjective. */
module LayoutMatrix {
  import opened Basics
  import opened GF2
  import opened LinearSolve
  import opened Layouts

  // ---------------------------------------------------------------- flattening

  /** The bits of the dimensions in order, lowest bit first. */
  function BitList(dims: seq<Dim>, sizes: map<Dim, nat>): seq<Bit> {
    if dims == [] then [] else BitList(dims[..|dims| - 1], sizes) + DimBits(dims[|dims| - 1], sizes)
  }

  function DimBits(d: Dim, sizes: map<Dim, nat>): seq<Bit> {
    seq(if d in sizes then sizes[d] else 0, i requires 0 <= i => Bit(d, i))
  }

  ghost predicate Lists(bits: seq<Bit>, s: set<Bit>) {
    NoDup(bits) && forall b :: b in bits <==> b in s
  }

  lemma {:induction false} BitListElements(dims: seq<Dim>, sizes: map<Dim, nat>)
    requires NoDup(dims)
    ensures NoDup(BitList(dims, sizes))
    ensures forall b :: b in BitList(dims, sizes) <==> b.dim in dims && b.dim in sizes && b.pos < sizes[b.dim]
  {
    if dims != [] {
      var init, d := dims[..|dims| - 1], dims[|dims| - 1];
      BitListElements(init, sizes);
      var bits := DimBits(d, sizes);
      forall b
        ensures b in bits <==> b.dim == d && d in sizes && b.pos < sizes[d]
      {
        if b.dim == d && d in sizes && b.pos < sizes[d] {
          assert bits[b.pos] == b;
        }
      }
      assert forall e :: e in dims <==> e in init || e == d;
      AppendNoDup(BitList(init, sizes), bits);
    }
  }

  lemma AppendNoDup<T>(a: seq<T>, b: seq<T>)
    requires NoDup(a) && NoDup(b) && forall i, j :: 0 <= i < |a| && 0 <= j < |b| ==> a[i] != b[j]
    ensures NoDup(a + b)
  {
  }

  lemma {:induction false} BitListAt(dims: seq<Dim>, sizes: map<Dim, nat>, k: nat, i: nat)
    requires k < |dims| && dims[k] in sizes && i < sizes[dims[k]]
    ensures var at := |BitList(dims[..k], sizes)| + i;
      at < |BitList(dims, sizes)| && BitList(dims, sizes)[at] == Bit(dims[k], i)
  {
    var n := |dims| - 1;
    if k < n {
      BitListAt(dims[..n], sizes, k, i);
      assert dims[..n][..k] == dims[..k];
    }
  }

  function InSizes(L: Layout): map<Dim, nat> {
    map d | d in L.bases :: |L.bases[d]|
  }

  function InList(L: Layout): seq<Bit> {
    BitList(L.inDims, InSizes(L))
  }

  function OutList(L: Layout): seq<Bit> {
    BitList(L.outDims, L.outSizes)
  }

  lemma InListLists(L: Layout)
    requires L.Valid()
    ensures Lists(InList(L), L.InBits())
  {
    BitListElements(L.inDims, InSizes(L));
  }

  lemma OutListLists(L: Layout)
    requires L.Valid()
    ensures Lists(OutList(L), L.OutBits())
  {
    BitListElements(L.outDims, L.outSizes);
  }

  /** The places in the list of the members of v. */
  function Flat(v: set<Bit>, bits: seq<Bit>): (r: set<nat>)
    ensures forall k: nat :: k in r <==> k < |bits| && bits[k] in v
  {
    set k: nat | k < |bits| && bits[k] in v
  }

  /** The bits at the places in x. */
  function Unflat(x: set<nat>, bits: seq<Bit>): (r: set<Bit>)
    ensures forall b :: b in r <==> exists k :: k in x && k < |bits| && bits[k] == b
  {
    set k | k in x && k < |bits| :: bits[k]
  }

  lemma FlatUnflat(x: set<nat>, bits: seq<Bit>)
    requires NoDup(bits) && Below(x, |bits|)
    ensures Flat(Unflat(x, bits), bits) == x
  {
  }

  lemma {:induction false} FlatSize(v: set<Bit>, bits: seq<Bit>)
    requires NoDup(bits) && forall b :: b in v ==> b in bits
    ensures |Flat(v, bits)| == |v|
    decreases v
  {
    if v == {} {
      assert Flat(v, bits) == {};
    } else {
      var b :| b in v;
      var k :| 0 <= k < |bits| && bits[k] == b;
      FlatSize(v - {b}, bits);
      FlatWithout(v, bits, k);
    }
  }

  lemma FlatWithout(v: set<Bit>, bits: seq<Bit>, k: nat)
    requires NoDup(bits) && k < |bits| && bits[k] in v
    ensures Flat(v, bits) == Flat(v - {bits[k]}, bits) + {k} && k !in Flat(v - {bits[k]}, bits)
  {
  }

  /** The matrix of a layout, one column per input bit. */
  function Columns(L: Layout, ins: seq<Bit>, outs: seq<Bit>): (r: seq<set<nat>>)
    ensures |r| == |ins| && forall k :: 0 <= k < |ins| ==> r[k] == Flat(L.Basis(ins[k]), outs)
  {
    seq(|ins|, k requires 0 <= k < |ins| => Flat(L.Basis(ins[k]), outs))
  }

  lemma ColumnsBelow(L: Layout, ins: seq<Bit>, outs: seq<Bit>)
    ensures AllBelow(Columns(L, ins, outs), |outs|)
  {
  }

  lemma RowIsReaching(L: Layout, ins: seq<Bit>, outs: seq<Bit>, x: set<Bit>, t: nat)
    requires L.Valid() && Lists(ins, L.InBits()) && t < |outs|
    ensures Odd(Row(Columns(L, ins, outs), t) * Flat(x, ins)) <==> outs[t] in L.Image(x)
  {
    var b := outs[t];
    var reached := x * L.Reaching(b);
    assert Row(Columns(L, ins, outs), t) * Flat(x, ins) == Flat(reached, ins);
    FlatSize(reached, ins);
    if !L.HasOut(b) {
      assert reached == {};
    }
  }

  /** Applying the matrix is applying the layout. */
  lemma ComboIsImage(L: Layout, ins: seq<Bit>, outs: seq<Bit>, x: set<Bit>)
    requires L.Valid() && Lists(ins, L.InBits()) && NoDup(outs)
    ensures Combo(Columns(L, ins, outs), Flat(x, ins)) == Flat(L.Image(x), outs)
  {
    hide Layout.Valid, Combo, Layout.Image;
    var cols := Columns(L, ins, outs);
    forall t: nat
      ensures t in Combo(cols, Flat(x, ins)) <==> t in Flat(L.Image(x), outs)
    {
      ComboBit(cols, Flat(x, ins), t);
      if t < |outs| {
        RowIsReaching(L, ins, outs, x, t);
      } else {
        assert Row(cols, t) == {};
        assert {} * Flat(x, ins) == {};
      }
    }
  }

  // ---------------------------------------------------------------- solvability

  ghost predicate InImage(A: Layout, w: set<Bit>) {
    exists v :: A.Image(v) == w
  }

  lemma FlatInjective(v: set<Bit>, w: set<Bit>, bits: seq<Bit>)
    requires (forall b :: b in v ==> b in bits) && (forall b :: b in w ==> b in bits) && Flat(v, bits) == Flat(w, bits)
    ensures v == w
  {
  }

  /** The flattened system is solvable exactly when the layout's equation is. */
  lemma SolvableFlat(A: Layout, w: set<Bit>)
    requires A.Valid() && w <= A.OutBits()
    ensures InSpan(Flat(w, OutList(A)), Columns(A, InList(A), OutList(A))) <==> InImage(A, w)
  {
    hide Layout.Valid, Combo, Layout.Image, Flat, Unflat, InList, OutList;
    InListLists(A);
    OutListLists(A);
    var ins, outs := InList(A), OutList(A);
    var cols := Columns(A, ins, outs);
    if InSpan(Flat(w, outs), cols) {
      var x :| Combo(cols, x) == Flat(w, outs);
      var x' := set k | k in x && k < |ins|;
      ComboAgree(cols, x, x');
      FlatUnflat(x', ins);
      ComboIsImage(A, ins, outs, Unflat(x', ins));
      FlatInjective(A.Image(Unflat(x', ins)), w, outs);
    }
    if v :| A.Image(v) == w {
      ComboIsImage(A, ins, outs, v);
    }
  }

  // ---------------------------------------------------------------- surjectivity

  ghost predicate Surjective(L: Layout) {
    forall y :: y <= L.OutBits() ==> InImage(L, y)
  }

  lemma ImagesOfTwo(L: Layout, c: Bit, d: Bit)
    requires L.Valid()
    ensures InImage(L, {}) && InImage(L, L.Basis(c)) && InImage(L, L.Basis(d))
    ensures InImage(L, Xor(L.Basis(c), L.Basis(d)))
  {
    hide *;
    ImageNothing(L);
    ImageUnit(L, c);
    ImageUnit(L, d);
    ImageXor(L, {c}, {d});
    IsHit(L, {});
    IsHit(L, {c});
    IsHit(L, {d});
    IsHit(L, Xor({c}, {d}));
  }

  lemma IsHit(L: Layout, v: set<Bit>)
    ensures InImage(L, L.Image(v))
  {
    hide Layout.Image;
  }

  lemma TwoByTwoSurjective(ins: seq<Dim>, a: Dim, b: Dim, x: Dim, y: Dim)
    requires a != b && x != y && (ins == [a, b] || ins == [b, a])
    ensures Surjective(TwoByTwo(ins, a, b, x, y))
  {
    hide InImage, Layout.Valid, Layout.Basis, Layout.Image, TwoByTwo;
    var L := TwoByTwo(ins, a, b, x, y);
    TwoByTwoShape(ins, a, b, x, y);
    ImagesOfTwo(L, Bit(a, 0), Bit(b, 0));
    forall w | w <= L.OutBits()
      ensures InImage(L, w)
    {
      TwoBits(w, Bit(x, 0), Bit(y, 0));
    }
  }

  lemma TwoBits(w: set<Bit>, b: Bit, c: Bit)
    requires b != c && w <= {b, c}
    ensures w == {} || w == {b} || w == {c} || w == Xor({b}, {c})
  {
  }

  /** A layout is surjective exactly when its columns span all vectors of output bits. */
  lemma SurjectiveIsOnto(L: Layout)
    requires L.Valid()
    ensures Surjective(L) <==> Onto(Columns(L, InList(L), OutList(L)), |OutList(L)|)
  {
    hide Layout.Valid, Flat, Unflat, InList, OutList, InSpan, InImage;
    OutListLists(L);
    var outs := OutList(L);
    var cols := Columns(L, InList(L), outs);
    if Surjective(L) {
      forall z | Below(z, |outs|)
        ensures InSpan(z, cols)
      {
        FlatUnflat(z, outs);
        UnflatListed(z, outs);
        SolvableFlat(L, Unflat(z, outs));
      }
    }
    if Onto(cols, |outs|) {
      forall y | y <= L.OutBits()
        ensures InImage(L, y)
      {
        SolvableFlat(L, y);
        FlatBelow(y, outs);
      }
    }
  }

  lemma UnflatListed(z: set<nat>, bits: seq<Bit>)
    ensures forall b :: b in Unflat(z, bits) ==> b in bits
  {
  }

  lemma FlatBelow(v: set<Bit>, bits: seq<Bit>)
    ensures Below(Flat(v, bits), |bits|)
  {
  }

  /** Decides surjectivity by comparing the rank with the number of output bits. */
  method IsSurjective(L: Layout) returns (b: bool)
    requires L.Valid()
    ensures b <==> Surjective(L)
  {
    hide Layout.Valid, Flat, InList, OutList;
    var ins, outs := InList(L), OutList(L);
    ColumnsBelow(L, ins, outs);
    SurjectiveIsOnto(L);
    var rank := GetMatrixRank(Columns(L, ins, outs), |outs|);
    b := rank == |outs|;
  }

  /** What the constructor demands of a composition: with sizes that agree, it is surjective when both layouts are. */
  lemma ComposedSurjective(r: Layout, L: Layout, outer: Layout)
    requires Surjective(L) && Surjective(outer) && forall d :: L.OutSize(d) == outer.InSize(d)
    requires forall d :: r.OutSize(d) == outer.OutSize(d)
    requires forall x :: r.Image(x) == outer.Image(L.Image(x))
    ensures Surjective(r)
  {
    hide Layout.Image;
    forall y | y <= r.OutBits()
      ensures InImage(r, y)
    {
      assert y <= outer.OutBits();
      var x1 :| outer.Image(x1) == y;
      var mid := x1 * outer.InBits();
      ImageAgree(outer, x1, mid);
      assert mid <= L.OutBits();
      var x0 :| L.Image(x0) == mid;
      assert r.Image(x0) == y;
    }
  }
}
