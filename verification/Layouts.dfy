/** Linear layouts with named dimensions: application and composition. */
module Layouts {
  import opened Basics
  import opened GF2

  type Dim = string

  /** Bit `pos` of the coordinate in dimension `dim`. */
  datatype Bit = Bit(dim: Dim, pos: nat)

  /**
   * A layout: for every input dimension, one basis vector per bit, and for every output dimension the base-two
   * logarithm of its size.  A vector is the set of the output bits that are one.
   */
  datatype Layout = Layout(inDims: seq<Dim>, bases: map<Dim, seq<set<Bit>>>,
                           outDims: seq<Dim>, outSizes: map<Dim, nat>) {

    function InSize(d: Dim): nat {
      if d in bases then |bases[d]| else 0
    }

    function OutSize(d: Dim): nat {
      if d in outSizes then outSizes[d] else 0
    }

    predicate HasIn(c: Bit) {
      c.pos < InSize(c.dim)
    }

    predicate HasOut(b: Bit) {
      b.pos < OutSize(b.dim)
    }

    function Basis(c: Bit): set<Bit> {
      if HasIn(c) then bases[c.dim][c.pos] else {}
    }

    function InBits(): (r: set<Bit>)
      ensures forall c :: c in r <==> HasIn(c)
    {
      set d, i: nat | d in bases && i < |bases[d]| :: Bit(d, i)
    }

    function OutBits(): (r: set<Bit>)
      ensures forall b :: b in r <==> HasOut(b)
    {
      set d, i: nat | d in outSizes && i < outSizes[d] :: Bit(d, i)
    }

    ghost predicate Valid() {
      && NoDup(inDims) && NoDup(outDims)
      && (forall d :: d in bases <==> d in inDims)
      && (forall d :: d in outSizes <==> d in outDims)
      && forall c, b :: HasIn(c) && b in Basis(c) ==> HasOut(b)
    }

    /** The input bits whose basis vector has output bit b. */
    function Reaching(b: Bit): (r: set<Bit>)
      ensures forall c :: c in r <==> HasIn(c) && b in Basis(c)
    {
      set c | c in InBits() && b in Basis(c)
    }

    /** The output for the input whose one-bits are x. */
    function Image(x: set<Bit>): (r: set<Bit>)
      ensures forall b :: b in r <==> HasOut(b) && Dot(x, Reaching(b))
    {
      set b | b in OutBits() && Dot(x, Reaching(b))
    }
  }

  // ---------------------------------------------------------------- linearity

  lemma ImageXor(L: Layout, x: set<Bit>, y: set<Bit>)
    ensures L.Image(Xor(x, y)) == Xor(L.Image(x), L.Image(y))
  {
    forall b
      ensures b in L.Image(Xor(x, y)) <==> b in Xor(L.Image(x), L.Image(y))
    {
      DotXor(L.Reaching(b), x, y);
    }
  }

  lemma ImageUnit(L: Layout, c: Bit)
    requires L.Valid()
    ensures L.Image({c}) == L.Basis(c)
  {
    forall b
      ensures b in L.Image({c}) <==> b in L.Basis(c)
    {
      DotUnit(L.Reaching(b), c);
    }
  }

  lemma ImageNothing(L: Layout)
    ensures L.Image({}) == {}
  {
  }

  /** Only the input bits that exist matter. */
  lemma ImageAgree(L: Layout, x: set<Bit>, y: set<Bit>)
    requires forall c :: L.HasIn(c) ==> (c in x <==> c in y)
    ensures L.Image(x) == L.Image(y)
  {
    forall b
      ensures x * L.Reaching(b) == y * L.Reaching(b)
    {
    }
  }

  /** Adding one more bit to the input adds its basis vector to the output. */
  lemma ImageInsert(L: Layout, x: set<Bit>, c: Bit)
    requires L.Valid() && c !in x
    ensures L.Image(x + {c}) == Xor(L.Image(x), L.Basis(c))
  {
    assert Xor(x, {c}) == x + {c};
    ImageXor(L, x, {c});
    ImageUnit(L, c);
  }

  /** Layouts with the same dimension lists, sizes and basis vectors are equal. */
  lemma SameLayout(L: Layout, M: Layout)
    requires L.inDims == M.inDims && L.outDims == M.outDims
    requires L.Valid() && M.bases.Keys == L.bases.Keys && M.outSizes.Keys == L.outSizes.Keys
    requires forall d :: L.InSize(d) == M.InSize(d) && L.OutSize(d) == M.OutSize(d)
    requires forall c :: L.HasIn(c) ==> L.Basis(c) == M.Basis(c)
    ensures L == M
  {
    forall d | d in L.bases
      ensures L.bases[d] == M.bases[d]
    {
      assert L.InSize(d) == M.InSize(d);
      forall i | 0 <= i < |L.bases[d]|
        ensures L.bases[d][i] == M.bases[d][i]
      {
        assert L.HasIn(Bit(d, i)) && L.Basis(Bit(d, i)) == M.Basis(Bit(d, i));
      }
    }
    assert L.bases == M.bases;
    forall d | d in L.outSizes
      ensures L.outSizes[d] == M.outSizes[d]
    {
      assert L.OutSize(d) == M.OutSize(d);
    }
    assert L.outSizes == M.outSizes;
  }

  // ---------------------------------------------------------------- small layouts

  lemma OneInputDim(L: Layout, r: Dim, bs: seq<set<Bit>>)
    requires L.inDims == [r] && L.bases == map[r := bs]
    ensures NoDup(L.inDims) && forall d :: d in L.bases <==> d in L.inDims
    ensures forall c: Bit :: L.HasIn(c) <==> c.dim == r && c.pos < |bs|
    ensures forall i: nat :: i < |bs| ==> L.Basis(Bit(r, i)) == bs[i]
  {
  }

  lemma TwoInputDims(L: Layout, d: Dim, e: Dim, u: set<Bit>, v: set<Bit>)
    requires d != e && L.inDims == [d, e] && L.bases == map[d := [u], e := [v]]
    ensures NoDup(L.inDims) && forall f :: f in L.bases <==> f in L.inDims
    ensures forall c: Bit :: L.HasIn(c) <==> c == Bit(d, 0) || c == Bit(e, 0)
    ensures L.Basis(Bit(d, 0)) == u && L.Basis(Bit(e, 0)) == v
  {
  }

  lemma OneBitOutput(L: Layout, x: Dim)
    requires L.outDims == [x] && L.outSizes == map[x := 1]
    ensures NoDup(L.outDims) && forall d :: d in L.outSizes <==> d in L.outDims
    ensures forall b: Bit :: L.HasOut(b) <==> b == Bit(x, 0)
  {
  }

  lemma TwoBitOutput(L: Layout, x: Dim, y: Dim)
    requires x != y && L.outDims == [x, y] && L.outSizes == map[x := 1, y := 1]
    ensures NoDup(L.outDims) && forall d :: d in L.outSizes <==> d in L.outDims
    ensures forall b: Bit :: L.HasOut(b) <==> b == Bit(x, 0) || b == Bit(y, 0)
  {
  }

  /** The layout that sends the bit of a to that of x and the bit of b to that of y, with either order of a and b. */
  function TwoByTwo(ins: seq<Dim>, a: Dim, b: Dim, x: Dim, y: Dim): Layout {
    Layout(ins, map[a := [{Bit(x, 0)}], b := [{Bit(y, 0)}]], [x, y], map[x := 1, y := 1])
  }

  lemma TwoByTwoShape(ins: seq<Dim>, a: Dim, b: Dim, x: Dim, y: Dim)
    requires a != b && x != y && (ins == [a, b] || ins == [b, a])
    ensures var L := TwoByTwo(ins, a, b, x, y);
      && L.Valid() && L.inDims == ins && L.outDims == [x, y]
      && (forall d :: L.InSize(d) == if d == a || d == b then 1 else 0)
      && (forall d :: L.OutSize(d) == if d == x || d == y then 1 else 0)
      && L.Basis(Bit(a, 0)) == {Bit(x, 0)} && L.Basis(Bit(b, 0)) == {Bit(y, 0)}
  {
    var L := TwoByTwo(ins, a, b, x, y);
    TwoBitOutput(L, x, y);
    if ins == [a, b] {
      TwoInputDims(L, a, b, {Bit(x, 0)}, {Bit(y, 0)});
    } else {
      assert L.bases == map[b := [{Bit(y, 0)}], a := [{Bit(x, 0)}]];
      TwoInputDims(L, b, a, {Bit(y, 0)}, {Bit(x, 0)});
    }
  }

  // ---------------------------------------------------------------- application and composition

  /** The coordinate of bit set v in dimension d. */
  function Coordinate(v: set<Bit>, d: Dim): (r: set<nat>)
    ensures forall i: nat :: i in r <==> Bit(d, i) in v
  {
    set b | b in v && b.dim == d :: b.pos
  }

  /** The bits of a list of named coordinates. */
  function Bits(ins: seq<(Dim, set<nat>)>): (r: set<Bit>) {
    if ins == [] then {} else Bits(ins[..|ins| - 1]) + OfDim(ins[|ins| - 1].0, ins[|ins| - 1].1)
  }

  function OfDim(d: Dim, v: set<nat>): (r: set<Bit>)
    ensures forall b :: b in r <==> b.dim == d && b.pos in v
  {
    set i | i in v :: Bit(d, i)
  }

  lemma {:induction false} BitsOfOtherDims(ins: seq<(Dim, set<nat>)>, d: Dim)
    requires forall k :: 0 <= k < |ins| ==> ins[k].0 != d
    ensures forall b :: b in Bits(ins) ==> b.dim != d
  {
    if ins != [] {
      BitsOfOtherDims(ins[..|ins| - 1], d);
    }
  }

  /** Evaluates the layout one output dimension at a time, adding up the basis vectors of the input's one-bits. */
  method Apply(L: Layout, ins: seq<(Dim, set<nat>)>) returns (ret: seq<(Dim, set<nat>)>)
    requires L.Valid() && |ins| == |L.inDims|
    requires forall k, l :: 0 <= k < l < |ins| ==> ins[k].0 != ins[l].0
    requires forall k :: 0 <= k < |ins| ==> ins[k].0 in L.inDims
    ensures |ret| == |L.outDims|
    ensures forall o :: 0 <= o < |ret| ==> ret[o] == (L.outDims[o], Coordinate(L.Image(Bits(ins)), L.outDims[o]))
  {
    hide *;
    ret := [];
    for o := 0 to |L.outDims|
      invariant |ret| == o
      invariant forall k :: 0 <= k < o ==> ret[k] == (L.outDims[k], Coordinate(L.Image(Bits(ins)), L.outDims[k]))
    {
      var outDim := L.outDims[o];
      var outVal: set<nat> := {};
      NoCoordinate(L, ins, outDim);
      for k := 0 to |ins|
        invariant outVal == Coordinate(L.Image(Bits(ins[..k])), outDim)
      {
        BitsOfOtherDims(ins[..k], ins[k].0);
        outVal := AddCoordinate(L, Bits(ins[..k]), ins[k].0, ins[k].1, outDim, outVal);
        BitsOneMore(ins, k);
      }
      assert ins[..|ins|] == ins;
      ret := ret + [(outDim, outVal)];
    }
  }

  lemma NoCoordinate(L: Layout, ins: seq<(Dim, set<nat>)>, outDim: Dim)
    ensures Coordinate(L.Image(Bits(ins[..0])), outDim) == {}
  {
  }

  lemma BitsOneMore(ins: seq<(Dim, set<nat>)>, k: nat)
    requires k < |ins|
    ensures Bits(ins[..k + 1]) == Bits(ins[..k]) + OfDim(ins[k].0, ins[k].1)
  {
    assert ins[..k + 1][..k] == ins[..k];
  }

  /** Adds the basis vectors selected by the bits of one input coordinate. */
  method AddCoordinate(L: Layout, ghost x: set<Bit>, d: Dim, val: set<nat>, outDim: Dim, acc: set<nat>)
    returns (outVal: set<nat>)
    requires L.Valid() && acc == Coordinate(L.Image(x), outDim) && forall b :: b in x ==> b.dim != d
    ensures outVal == Coordinate(L.Image(x + OfDim(d, val)), outDim)
  {
    hide L.Valid, L.Image, Coordinate, OfDim, LowBits;
    outVal := acc;
    assert x + OfDim(d, LowBits(val, 0)) == x;
    for i := 0 to L.InSize(d)
      invariant outVal == Coordinate(L.Image(x + OfDim(d, LowBits(val, i))), outDim)
    {
      if i in val {
        AddBit(L, x, d, val, i, outDim);
        outVal := Xor(outVal, Coordinate(L.Basis(Bit(d, i)), outDim));
      } else {
        assert LowBits(val, i) == LowBits(val, i + 1);
      }
    }
    HighBitsIgnored(L, x, d, val);
  }

  lemma AddBit(L: Layout, x: set<Bit>, d: Dim, val: set<nat>, i: nat, outDim: Dim)
    requires L.Valid() && i in val && forall b :: b in x ==> b.dim != d
    ensures Coordinate(L.Image(x + OfDim(d, LowBits(val, i + 1))), outDim)
         == Xor(Coordinate(L.Image(x + OfDim(d, LowBits(val, i))), outDim), Coordinate(L.Basis(Bit(d, i)), outDim))
  {
    hide L.Valid, L.Image, Coordinate, OfDim, LowBits;
    var before := x + OfDim(d, LowBits(val, i));
    ImageInsert(L, before, Bit(d, i));
    assert before + {Bit(d, i)} == x + OfDim(d, LowBits(val, i + 1));
    CoordinateXor(L.Image(before), L.Basis(Bit(d, i)), outDim);
  }

  lemma CoordinateXor(u: set<Bit>, v: set<Bit>, d: Dim)
    ensures Coordinate(Xor(u, v), d) == Xor(Coordinate(u, d), Coordinate(v, d))
  {
  }

  /** The bits of v below n. */
  function LowBits(v: set<nat>, n: nat): (r: set<nat>)
    ensures forall i: nat :: i in r <==> i in v && i < n
  {
    set i | i in v && i < n
  }

  lemma HighBitsIgnored(L: Layout, x: set<Bit>, d: Dim, val: set<nat>)
    requires forall b :: b in x ==> b.dim != d
    ensures L.Image(x + OfDim(d, LowBits(val, L.InSize(d)))) == L.Image(x + OfDim(d, val))
  {
    forall b
      ensures (x + OfDim(d, LowBits(val, L.InSize(d)))) * L.Reaching(b) == (x + OfDim(d, val)) * L.Reaching(b)
    {
    }
  }

  /** The layout that first applies L and then outer. */
  method Compose(L: Layout, outer: Layout) returns (r: Layout)
    requires L.Valid() && outer.Valid() && Elems(L.outDims) == Elems(outer.inDims)
    requires forall d :: d in L.outDims ==> L.OutSize(d) <= outer.InSize(d)
    ensures r.Valid() && r.inDims == L.inDims && r.outDims == outer.outDims
    ensures forall d :: r.InSize(d) == L.InSize(d) && r.OutSize(d) == outer.OutSize(d)
    ensures forall x :: r.Image(x) == outer.Image(L.Image(x))
  {
    hide Layout.Image, Layout.Valid, ComposedBases;
    var newBases: map<Dim, seq<set<Bit>>> := map[];
    for k := 0 to |L.inDims|
      invariant forall d :: d in newBases <==> d in L.inDims[..k]
      invariant forall d :: d in newBases ==> d in L.bases && ComposedBases(newBases[d], L.bases[d], outer)
    {
      InDimHasBases(L, k);
      var d := L.inDims[k];
      var newInDimBases := ComposeBases(L.bases[d], outer);
      newBases := newBases[d := newInDimBases];
    }
    r := Layout(L.inDims, newBases, outer.outDims, outer.outSizes);
    ComposedIsValid(r, L, outer);
    forall x
      ensures r.Image(x) == outer.Image(L.Image(x))
    {
      ComposedImage(r, L, outer, x);
    }
  }

  lemma InDimHasBases(L: Layout, k: nat)
    requires L.Valid() && k < |L.inDims|
    ensures L.inDims[k] in L.bases
  {
  }

  lemma ComposedIsValid(r: Layout, L: Layout, outer: Layout)
    requires L.Valid() && outer.Valid() && r.inDims == L.inDims && r.outDims == outer.outDims
      && r.outSizes == outer.outSizes
    requires forall d :: d in r.bases <==> d in L.inDims
    requires forall d :: d in r.bases ==> d in L.bases && ComposedBases(r.bases[d], L.bases[d], outer)
    ensures r.Valid() && forall d :: r.InSize(d) == L.InSize(d)
    ensures forall c :: r.Basis(c) == if L.HasIn(c) then outer.Image(L.Basis(c)) else {}
  {
  }

  method ComposeBases(bs: seq<set<Bit>>, outer: Layout) returns (newBases: seq<set<Bit>>)
    ensures ComposedBases(newBases, bs, outer)
  {
    newBases := [];
    for i := 0 to |bs|
      invariant |newBases| == i && forall j :: 0 <= j < i ==> newBases[j] == outer.Image(bs[j])
    {
      newBases := newBases + [outer.Image(bs[i])];
    }
  }

  ghost predicate ComposedBases(newBases: seq<set<Bit>>, bs: seq<set<Bit>>, outer: Layout) {
    |newBases| == |bs| && forall i :: 0 <= i < |bs| ==> newBases[i] == outer.Image(bs[i])
  }

  lemma {:induction false} ComposedImage(r: Layout, L: Layout, outer: Layout, x: set<Bit>)
    requires r.Valid() && L.Valid() && outer.Valid()
    requires forall c :: r.Basis(c) == if L.HasIn(c) then outer.Image(L.Basis(c)) else {}
    ensures r.Image(x) == outer.Image(L.Image(x))
    decreases x
  {
    ImageNothing(r);
    ImageNothing(L);
    ImageNothing(outer);
    if x != {} {
      var c :| c in x;
      var y := x - {c};
      ComposedImage(r, L, outer, y);
      assert y + {c} == x;
      ImageInsert(r, y, c);
      ImageInsert(L, y, c);
      ImageXor(outer, L.Image(y), L.Basis(c));
    }
  }
}
