/** Subspace intersection, basis completion, and the shared-memory swizzle built from them. */
module Swizzling {
  import opened Basics
  import opened GF2
  import opened RowReduction
  import opened LinearSolve

  // ---------------------------------------------------------------- unit vectors

  predicate IsPowerOf2(v: set<nat>) {
    |v| == 1
  }

  lemma UnitIsSingleton(v: set<nat>) returns (t: nat)
    requires IsPowerOf2(v)
    ensures v == {t}
  {
    t :| t in v;
    assert |v - {t}| == 0;
  }

  ghost predicate UnitsOrZero(us: seq<set<nat>>) {
    forall k :: 0 <= k < |us| ==> us[k] == {} || IsPowerOf2(us[k])
  }

  /** The span of zero and unit vectors is everything made of their bits. */
  lemma UnitSpan(us: seq<set<nat>>, v: set<nat>)
    requires UnitsOrZero(us)
    ensures InSpan(v, us) <==> forall t :: t in v ==> {t} in us
  {
    if InSpan(v, us) {
      var x :| Combo(us, x) == v;
      forall t | t in v
        ensures {t} in us
      {
        ComboBit(us, x, t);
        assert Row(us, t) * x != {};
        var k :| k in Row(us, t) * x;
        var t' := UnitIsSingleton(us[k]);
      }
    }
    if forall t :: t in v ==> {t} in us {
      SpanOfBits(us, v);
    }
  }

  lemma {:induction false} SpanOfBits(us: seq<set<nat>>, v: set<nat>)
    requires forall t :: t in v ==> InSpan({t}, us) || {t} in us
    ensures InSpan(v, us)
    decreases v
  {
    if v == {} {
      SpanZero(us);
    } else {
      var t :| t in v;
      SpanOfBits(us, v - {t});
      if {t} in us {
        var k :| 0 <= k < |us| && us[k] == {t};
        SpanContains(us, k);
      }
      SpanXor(us, v - {t}, {t});
      assert Xor(v - {t}, {t}) == v;
    }
  }

  /** Non-zero vectors with no bit in common. */
  ghost predicate DisjointSupports(vs: seq<set<nat>>) {
    && (forall k :: 0 <= k < |vs| ==> vs[k] != {})
    && forall k, l :: 0 <= k < l < |vs| ==> vs[k] !! vs[l]
  }

  /** A combination of such vectors has the bits of every vector it uses. */
  lemma ComboOfDisjoint(vs: seq<set<nat>>, x: set<nat>, k: nat, t: nat)
    requires DisjointSupports(vs) && k < |vs| && t in vs[k]
    ensures t in Combo(vs, x) <==> k in x
  {
    ComboBit(vs, x, t);
    assert forall l: nat :: l < |vs| && l != k ==> t !in vs[l] by {
      forall l: nat | l < |vs| && l != k
        ensures t !in vs[l]
      {
        assert vs[if l < k then l else k] !! vs[if l < k then k else l];
      }
    }
    assert Row(vs, t) == {k};
    DotUnit(x, k);
  }

  lemma DisjointIsIndependent(vs: seq<set<nat>>)
    requires DisjointSupports(vs)
    ensures Independent(vs)
  {
    forall x | Below(x, |vs|) && Combo(vs, x) == {}
      ensures x == {}
    {
      if k :| k in x {
        var t :| t in vs[k];
        ComboOfDisjoint(vs, x, k, t);
      }
    }
  }

  lemma RepeatedIsDependent(us: seq<set<nat>>, i: nat, j: nat)
    requires i < j < |us| && Independent(us)
    ensures us[i] != us[j]
  {
    hide Combo;
    ComboUnit(us, i);
    ComboUnit(us, j);
    ComboXor(us, {i}, {j});
    var x: set<nat> := Xor({i}, {j});
    assert i in x && Below(x, |us|);
  }

  lemma IndependentUnitsAreDisjoint(us: seq<set<nat>>)
    requires Independent(us) && forall k :: 0 <= k < |us| ==> IsPowerOf2(us[k])
    ensures DisjointSupports(us)
  {
    hide Independent;
    forall i, j | 0 <= i < j < |us|
      ensures us[i] !! us[j]
    {
      var s := UnitIsSingleton(us[i]);
      var t := UnitIsSingleton(us[j]);
      RepeatedIsDependent(us, i, j);
    }
  }

  // ---------------------------------------------------------------- intersection

  /** A basis of the vectors that lie in both spans. */
  method IntersectionBasis(b1: seq<set<nat>>, b2: seq<set<nat>>, dim: nat) returns (r: seq<set<nat>>)
    requires AllBelow(b1, dim) && AllBelow(b2, dim)
    ensures AllBelow(r, dim)
    ensures forall v :: InSpan(v, r) <==> InSpan(v, b1) && InSpan(v, b2)
    ensures Independent(b1) ==> Independent(r)
  {
    var powerOf2 := (forall v :: v in b1 ==> IsPowerOf2(v)) && (forall v :: v in b2 ==> IsPowerOf2(v));
    if powerOf2 {
      r := [];
      for i := 0 to |b1|
        invariant forall v :: v in r <==> v in b1[..i] && v in b2
        invariant forall k :: 0 <= k < |r| ==> r[k] in b1[..i]
        invariant DisjointSupports(b1) ==> DisjointSupports(r)
      {
        if b1[i] != {} && b1[i] in b2 {
          if DisjointSupports(b1) {
            DisjointAppend(b1, i, r);
          }
          r := r + [b1[i]];
        }
        assert b1[..i + 1] == b1[..i] + [b1[i]];
        assert b1[i] in b1;
      }
      assert b1[..|b1|] == b1;
      UnitIntersection(b1, b2, r, dim);
    } else {
      var ns1 := NullspaceBasis(b1, dim);
      var ns2 := NullspaceBasis(b2, dim);
      r := NullspaceBasis(ns1 + ns2, dim);
      DoubleNullspace(b1, b2, ns1, ns2, r, dim);
    }
  }

  lemma DisjointAppend(b1: seq<set<nat>>, i: nat, r: seq<set<nat>>)
    requires i < |b1| && DisjointSupports(b1) && DisjointSupports(r)
    requires forall k :: 0 <= k < |r| ==> r[k] in b1[..i]
    ensures DisjointSupports(r + [b1[i]])
  {
  }

  lemma UnitIntersection(b1: seq<set<nat>>, b2: seq<set<nat>>, r: seq<set<nat>>, dim: nat)
    requires AllBelow(b1, dim) && forall v :: v in r <==> v in b1 && v in b2
    requires (forall v :: v in b1 ==> IsPowerOf2(v)) && (forall v :: v in b2 ==> IsPowerOf2(v))
    requires DisjointSupports(b1) ==> DisjointSupports(r)
    ensures AllBelow(r, dim)
    ensures forall v :: InSpan(v, r) <==> InSpan(v, b1) && InSpan(v, b2)
    ensures Independent(b1) ==> Independent(r)
  {
    forall k | 0 <= k < |r|
      ensures Below(r[k], dim) && IsPowerOf2(r[k])
    {
      assert r[k] in r;
      var j :| 0 <= j < |b1| && b1[j] == r[k];
    }
    assert UnitsOrZero(b1) && UnitsOrZero(b2) && UnitsOrZero(r);
    forall v
      ensures InSpan(v, r) <==> InSpan(v, b1) && InSpan(v, b2)
    {
      UnitSpan(b1, v);
      UnitSpan(b2, v);
      UnitSpan(r, v);
    }
    if Independent(b1) {
      IndependentUnitsAreDisjoint(b1);
      DisjointIsIndependent(r);
    }
  }

  /** The vectors orthogonal to everything orthogonal to b1 and to everything orthogonal to b2. */
  lemma DoubleNullspace(b1: seq<set<nat>>, b2: seq<set<nat>>, ns1: seq<set<nat>>, ns2: seq<set<nat>>,
                        r: seq<set<nat>>, dim: nat)
    requires AllBelow(b1, dim) && AllBelow(b2, dim) && AllBelow(ns1, dim) && AllBelow(ns2, dim) && AllBelow(r, dim)
    requires forall v :: Below(v, dim) ==> (InSpan(v, ns1) <==> Annihilates(v, b1))
    requires forall v :: Below(v, dim) ==> (InSpan(v, ns2) <==> Annihilates(v, b2))
    requires forall v :: Below(v, dim) ==> (InSpan(v, r) <==> Annihilates(v, ns1 + ns2))
    ensures forall v :: InSpan(v, r) <==> InSpan(v, b1) && InSpan(v, b2)
  {
    forall v
      ensures InSpan(v, r) <==> InSpan(v, b1) && InSpan(v, b2)
    {
      if Below(v, dim) {
        AnnihilatesConcat(v, ns1, ns2);
        AnnihilatorOfNullspace(b1, ns1, v, dim);
        AnnihilatorOfNullspace(b2, ns2, v, dim);
      } else {
        SpanBelow(r, v, dim);
        SpanBelow(b1, v, dim);
      }
    }
  }

  lemma SpanBelow(cols: seq<set<nat>>, v: set<nat>, dim: nat)
    requires AllBelow(cols, dim)
    ensures InSpan(v, cols) ==> Below(v, dim)
  {
    if x :| Combo(cols, x) == v {
      ComboBelow(cols, x, dim);
    }
  }

  lemma AnnihilatesConcat(v: set<nat>, a: seq<set<nat>>, b: seq<set<nat>>)
    ensures Annihilates(v, a + b) <==> Annihilates(v, a) && Annihilates(v, b)
  {
    if Annihilates(v, a + b) {
      assert forall k :: 0 <= k < |a| ==> a[k] == (a + b)[k];
      assert forall k :: 0 <= k < |b| ==> b[k] == (a + b)[|a| + k];
    }
  }

  lemma AnnihilatorOfNullspace(b: seq<set<nat>>, ns: seq<set<nat>>, v: set<nat>, dim: nat)
    requires AllBelow(b, dim) && AllBelow(ns, dim) && Below(v, dim)
    requires forall w :: Below(w, dim) ==> (InSpan(w, ns) <==> Annihilates(w, b))
    ensures Annihilates(v, ns) <==> InSpan(v, b)
  {
    var univ := Upto(dim);
    forall k | 0 <= k < |b|
      ensures b[k] <= univ
    {
      assert Below(b[k], dim);
    }
    DoubleAnnihilator(b, v, univ);
    if Annihilates(v, ns) {
      forall w | w <= univ && Annihilates(w, b)
        ensures !Dot(w, v)
      {
        var x :| Combo(ns, x) == w;
        AnnihilatesSpan(v, ns, x);
        DotCommutes(v, w);
      }
    }
    if InSpan(v, b) {
      forall k | 0 <= k < |ns|
        ensures !Dot(v, ns[k])
      {
        SpanContains(ns, k);
        assert Below(ns[k], dim) && ns[k] <= univ;
        DotCommutes(v, ns[k]);
      }
    }
  }

  // ---------------------------------------------------------------- completing a basis

  /** The vectors are a basis of the whole space: every vector below dim is a combination of them in one way. */
  ghost predicate IsBasis(vs: seq<set<nat>>, dim: nat) {
    AllBelow(vs, dim) && Independent(vs) && forall v :: Below(v, dim) ==> InSpan(v, vs)
  }

  /** Applying a basis to input bits is one-to-one and onto. */
  lemma BasisIsBijection(vs: seq<set<nat>>, dim: nat, x: set<nat>, y: set<nat>, v: set<nat>)
    requires IsBasis(vs, dim)
    ensures Below(x, |vs|) && Below(y, |vs|) && Combo(vs, x) == Combo(vs, y) ==> x == y
    ensures Below(v, dim) ==> exists z :: Below(z, |vs|) && Combo(vs, z) == v
  {
    ComboXor(vs, x, y);
    assert Xor(x, y) == {} ==> x == y;
    if Below(v, dim) {
      var z :| Combo(vs, z) == v;
      var z' := set k | k in z && k < |vs|;
      ComboAgree(vs, z, z');
    }
  }

  /** The unit vectors at the positions that are no pivot of the reduced basis. */
  method ComplementBasis(basis: seq<set<nat>>, dim: nat) returns (comp: seq<set<nat>>)
    requires AllBelow(basis, dim)
    ensures Independent(basis) ==> IsBasis(basis + comp, dim) && |basis| + |comp| == dim
    ensures forall v :: Below(v, dim) ==> InSpan(v, basis + comp)
  {
    hide RowEquivalent, Reduced, IsNonPivotUnits, IsPivotColumn, Independent, InSpan, Upto;
    var mat := new set<nat>[|basis|](i requires 0 <= i < |basis| => basis[i]);
    assert mat[..] == basis;
    InplaceRref(mat, dim);
    var rows := mat[..];
    var pivotCols := PivotColumns(rows, dim);
    comp := UnitsOutside(pivotCols, rows, dim);
    CompletesBasis(basis, rows, comp, dim);
    if Independent(basis) {
      CompletionSize(basis, rows, pivotCols, dim);
    }
  }

  method UnitsOutside(pivotCols: set<nat>, ghost rows: seq<set<nat>>, dim: nat) returns (comp: seq<set<nat>>)
    requires forall c :: c in pivotCols <==> IsPivotColumn(rows, c)
    ensures IsNonPivotUnits(comp, rows, dim)
    ensures |comp| + |pivotCols * Upto(dim)| == dim
  {
    hide IsNonPivotUnits, IsPivotColumn, Upto, Odd;
    comp := [];
    NoUnits(pivotCols, rows);
    for i := 0 to dim
      invariant IsNonPivotUnits(comp, rows, i)
      invariant |comp| + |pivotCols * Upto(i)| == i
    {
      UnitsOneMore(comp, rows, i);
      UptoOneMore(pivotCols, i);
      if i !in pivotCols {
        comp := comp + [{i}];
      }
    }
  }

  lemma NoUnits(s: set<nat>, rows: seq<set<nat>>)
    ensures IsNonPivotUnits([], rows, 0) && |s * Upto(0)| == 0
  {
  }

  lemma UptoOneMore(s: set<nat>, i: nat)
    ensures |s * Upto(i + 1)| == |s * Upto(i)| + (if i in s then 1 else 0)
  {
    hide Upto;
    if i in s {
      assert s * Upto(i + 1) == s * Upto(i) + {i} && i !in s * Upto(i);
    } else {
      assert s * Upto(i + 1) == s * Upto(i);
    }
  }

  lemma UnitsOneMore(comp: seq<set<nat>>, rows: seq<set<nat>>, i: nat)
    requires IsNonPivotUnits(comp, rows, i)
    ensures IsNonPivotUnits(if IsPivotColumn(rows, i) then comp else comp + [{i}], rows, i + 1)
  {
  }

  lemma CompletionSize(basis: seq<set<nat>>, rows: seq<set<nat>>, pivotCols: set<nat>, dim: nat)
    requires Reduced(rows) && AllBelow(rows, dim) && RowEquivalent(basis, rows) && Independent(basis)
    requires forall c: nat :: c in pivotCols <==> IsPivotColumn(rows, c)
    ensures |pivotCols * Upto(dim)| == |basis|
  {
    ReducedIndependent(rows);
    var pivots := PivotCount(rows, |rows|);
    assert rows[..|rows|] == rows;
    PivotsInRange(rows, dim);
    assert pivotCols * Upto(dim) == pivots;
  }

  ghost predicate IsNonPivotUnit(v: set<nat>, rows: seq<set<nat>>, dim: nat) {
    exists b: nat :: b < dim && !IsPivotColumn(rows, b) && v == {b}
  }

  /** comp holds exactly the unit vectors below dim at positions that are no pivot. */
  ghost predicate IsNonPivotUnits(comp: seq<set<nat>>, rows: seq<set<nat>>, dim: nat) {
    && (forall k :: 0 <= k < |comp| ==> IsNonPivotUnit(comp[k], rows, dim))
    && (forall b: nat :: b < dim && !IsPivotColumn(rows, b) ==> {b} in comp)
    && DisjointSupports(comp)
  }

  lemma CompletesBasis(basis: seq<set<nat>>, rows: seq<set<nat>>, comp: seq<set<nat>>, dim: nat)
    requires AllBelow(basis, dim) && AllBelow(rows, dim) && Reduced(rows) && RowEquivalent(basis, rows)
    requires IsNonPivotUnits(comp, rows, dim)
    ensures AllBelow(basis + comp, dim)
    ensures forall v :: Below(v, dim) ==> InSpan(v, basis + comp)
    ensures Independent(basis) ==> Independent(basis + comp)
  {
    var all := basis + comp;
    forall b: nat | b < dim
      ensures InSpan({b}, all)
    {
      UnitInCompletion(basis, rows, comp, dim, b);
    }
    forall v | Below(v, dim)
      ensures InSpan(v, all)
    {
      SpanOfBits(all, v);
    }
    if Independent(basis) {
      forall x | Below(x, |all|) && Combo(all, x) == {}
        ensures x == {}
      {
        CompletionIndependent(basis, rows, comp, dim, x);
      }
    }
  }

  lemma UnitInCompletion(basis: seq<set<nat>>, rows: seq<set<nat>>, comp: seq<set<nat>>, dim: nat, b: nat)
    requires AllBelow(basis, dim) && AllBelow(rows, dim) && Reduced(rows) && RowEquivalent(basis, rows)
    requires IsNonPivotUnits(comp, rows, dim) && b < dim
    ensures InSpan({b}, basis + comp)
  {
    hide Reduced, DisjointSupports, InSpan;
    var all := basis + comp;
    if IsPivotColumn(rows, b) {
      var r :| 0 <= r < |rows| && IsPivot(b, rows[r]);
      RowInCompletion(basis, rows, comp, r);
      var rest := rows[r] - {b};
      assert Below(rows[r], dim);
      RestInCompletion(rows, comp, dim, r, b);
      forall t | t in rest
        ensures {t} in all
      {
        assert {t} in comp;
      }
      SpanOfBits(all, rest);
      SpanXor(all, rows[r], rest);
      assert Xor(rows[r], rest) == {b};
    } else {
      assert {b} in comp;
      var k :| 0 <= k < |comp| && comp[k] == {b};
      SpanContains(all, |basis| + k);
    }
  }

  lemma RowInCompletion(basis: seq<set<nat>>, rows: seq<set<nat>>, comp: seq<set<nat>>, r: nat)
    requires RowEquivalent(basis, rows) && r < |rows|
    ensures InSpan(rows[r], basis + comp)
  {
    hide Independent;
    SpanContains(rows, r);
    SpanOfPart(basis, comp, rows[r]);
  }

  lemma RestInCompletion(rows: seq<set<nat>>, comp: seq<set<nat>>, dim: nat, r: nat, b: nat)
    requires Reduced(rows) && r < |rows| && IsPivot(b, rows[r]) && Below(rows[r], dim)
    requires IsNonPivotUnits(comp, rows, dim)
    ensures forall t: nat :: t in rows[r] && t != b ==> {t} in comp
  {
  }

  lemma SpanOfPart(a: seq<set<nat>>, b: seq<set<nat>>, v: set<nat>)
    requires InSpan(v, a)
    ensures InSpan(v, a + b)
  {
    forall k | 0 <= k < |a|
      ensures InSpan(a[k], a + b)
    {
      SpanContains(a + b, k);
    }
    SpanMonotone(a, a + b);
  }

  lemma UnitComboBit(comp: seq<set<nat>>, rows: seq<set<nat>>, dim: nat, y: set<nat>, b: nat)
    requires IsNonPivotUnits(comp, rows, dim) && b in Combo(comp, y)
    ensures !IsPivotColumn(rows, b)
  {
    ComboBit(comp, y, b);
    assert Row(comp, b) * y != {};
    var k :| k in Row(comp, b) * y;
    assert IsNonPivotUnit(comp[k], rows, dim);
  }

  /** A combination of the basis and one of the units that cancel are both zero. */
  lemma CompletionIndependent(basis: seq<set<nat>>, rows: seq<set<nat>>, comp: seq<set<nat>>, dim: nat, x: set<nat>)
    requires Reduced(rows) && RowEquivalent(basis, rows) && Independent(basis)
    requires IsNonPivotUnits(comp, rows, dim)
    requires Below(x, |basis| + |comp|) && Combo(basis + comp, x) == {}
    ensures x == {}
  {
    hide Reduced, IsNonPivotUnits, IsPivotColumn, Combo;
    var y := set k | k in x && k >= |basis| :: k - |basis|;
    var u := Combo(basis, x);
    ComboConcat(basis, comp, x);
    assert u == Combo(comp, y);
    assert InSpan(u, basis);
    var z :| Combo(rows, z) == u;
    forall b | b in u
      ensures !IsPivotColumn(rows, b)
    {
      UnitComboBit(comp, rows, dim, y, b);
    }
    NoPivotBits(rows, z);
    assert DisjointSupports(comp) by { UnitsDisjoint(comp, rows, dim); }
    DisjointIsIndependent(comp);
    NoneChosen(basis, comp, x, y);
  }

  lemma UnitsDisjoint(comp: seq<set<nat>>, rows: seq<set<nat>>, dim: nat)
    requires IsNonPivotUnits(comp, rows, dim)
    ensures DisjointSupports(comp)
  {
  }

  lemma NoneChosen(a: seq<set<nat>>, b: seq<set<nat>>, x: set<nat>, y: set<nat>)
    requires Independent(a) && Independent(b) && Combo(a, x) == {} && Combo(b, y) == {}
    requires Below(x, |a| + |b|) && y == set k | k in x && k >= |a| :: k - |a|
    ensures x == {}
  {
    var x' := set k | k in x && k < |a|;
    assert forall k :: k in x ==> k in x' || k - |a| in y;
    ComboAgree(a, x, x');
    assert x' == {};
    assert Below(y, |b|);
  }

  lemma NoPivotBits(rows: seq<set<nat>>, z: set<nat>)
    requires Reduced(rows) && forall b :: b in Combo(rows, z) ==> !IsPivotColumn(rows, b)
    ensures Combo(rows, z) == {}
  {
    hide Reduced, IsPivotColumn;
    if b :| b in Combo(rows, z) {
      ComboBit(rows, z, b);
      assert Row(rows, b) * z != {};
      var k :| k in Row(rows, b) * z;
      var p := PivotShows(rows, z, k);
    }
  }

  /** The pivot of a chosen row is a bit of the combination. */
  lemma PivotShows(rows: seq<set<nat>>, z: set<nat>, k: nat) returns (p: nat)
    requires Reduced(rows) && k < |rows| && k in z && rows[k] != {}
    ensures p in Combo(rows, z) && IsPivotColumn(rows, p)
  {
    p := LowestIn(rows[k]);
    ComboBit(rows, z, p);
    assert Row(rows, p) == {k};
    DotUnit(z, k);
  }

  /** A reduced matrix without zero rows has one pivot per row. */
  lemma {:induction false} PivotCount(rows: seq<set<nat>>, n: nat) returns (pivots: set<nat>)
    requires Reduced(rows) && n <= |rows| && forall r :: 0 <= r < |rows| ==> rows[r] != {}
    ensures |pivots| == n && forall c: nat :: c in pivots <==> IsPivotColumn(rows[..n], c)
  {
    hide Reduced;
    if n == 0 {
      pivots := {};
    } else {
      var before := PivotCount(rows, n - 1);
      var p := LowestIn(rows[n - 1]);
      PivotIsFresh(rows, n - 1, p);
      PivotsOneMore(rows, n - 1);
      pivots := before + {p};
    }
  }

  // ---------------------------------------------------------------- where spans meet

  /** The vectors that lie within s, in order. */
  function Within(vs: seq<set<nat>>, s: set<nat>): seq<set<nat>> {
    if vs == [] then [] else Within(vs[..|vs| - 1], s) + (if vs[|vs| - 1] <= s then [vs[|vs| - 1]] else [])
  }

  lemma {:induction false} WithinMember(vs: seq<set<nat>>, s: set<nat>)
    ensures forall v :: v in Within(vs, s) <==> v in vs && v <= s
  {
    if vs != [] {
      WithinMember(vs[..|vs| - 1], s);
      assert vs == vs[..|vs| - 1] + [vs[|vs| - 1]];
    }
  }

  lemma {:induction false} WithinDisjoint(vs: seq<set<nat>>, s: set<nat>)
    requires DisjointSupports(vs)
    ensures DisjointSupports(Within(vs, s))
  {
    if vs != [] {
      var init, last := vs[..|vs| - 1], vs[|vs| - 1];
      WithinMember(init, s);
      WithinDisjoint(init, s);
      var w := Within(init, s);
      forall k | 0 <= k < |w|
        ensures w[k] !! last
      {
        assert w[k] in w;
        var j :| 0 <= j < |init| && init[j] == w[k];
        assert vs[j] !! vs[|vs| - 1];
      }
    }
  }

  lemma {:induction false} WithinConcat(a: seq<set<nat>>, b: seq<set<nat>>, s: set<nat>)
    ensures Within(a + b, s) == Within(a, s) + Within(b, s)
  {
    if b == [] {
      assert a + b == a;
    } else {
      assert (a + b)[..|a + b| - 1] == a + b[..|b| - 1];
      WithinConcat(a, b[..|b| - 1], s);
    }
  }

  lemma {:induction false} WithinAllOrNone(vs: seq<set<nat>>, s: set<nat>)
    ensures (forall k :: 0 <= k < |vs| ==> vs[k] <= s) ==> Within(vs, s) == vs
    ensures (forall k :: 0 <= k < |vs| ==> !(vs[k] <= s)) ==> Within(vs, s) == []
  {
    if vs != [] {
      WithinAllOrNone(vs[..|vs| - 1], s);
    }
  }

  /** The vectors of vs within the bits of us form a basis of the intersection of the two spans. */
  lemma WithinIsIntersection(vs: seq<set<nat>>, us: seq<set<nat>>, s: set<nat>)
    requires DisjointSupports(vs) && UnitsOrZero(us) && forall t :: t in s <==> {t} in us
    ensures Independent(Within(vs, s))
    ensures forall v :: InSpan(v, Within(vs, s)) <==> InSpan(v, vs) && InSpan(v, us)
  {
    var w := Within(vs, s);
    WithinMember(vs, s);
    WithinDisjoint(vs, s);
    DisjointIsIndependent(w);
    forall k | 0 <= k < |w|
      ensures InSpan(w[k], vs) && InSpan(w[k], us)
    {
      assert w[k] in w;
      var j :| 0 <= j < |vs| && vs[j] == w[k];
      SpanContains(vs, j);
      UnitSpan(us, w[k]);
    }
    SpanMonotone(w, vs);
    SpanMonotone(w, us);
    forall v | InSpan(v, vs) && InSpan(v, us)
      ensures InSpan(v, w)
    {
      UnitSpan(us, v);
      InSpanWithin(vs, s, v);
    }
  }

  lemma InSpanWithin(vs: seq<set<nat>>, s: set<nat>, v: set<nat>)
    requires DisjointSupports(vs) && InSpan(v, vs) && v <= s
    ensures InSpan(v, Within(vs, s))
  {
    var w := Within(vs, s);
    WithinMember(vs, s);
    var x :| Combo(vs, x) == v;
    forall k | 0 <= k < |vs| && k in x
      ensures InSpan(vs[k], w)
    {
      forall t | t in vs[k]
        ensures t in s
      {
        ComboOfDisjoint(vs, x, k, t);
      }
      assert vs[k] in w;
      var j :| 0 <= j < |w| && w[j] == vs[k];
      SpanContains(w, j);
    }
    SpanClosed(vs, w, x);
  }

  // ---------------------------------------------------------------- the segment

  /** The unit vectors of the bits in s below n, lowest first. */
  function Units(s: set<nat>, n: nat): (us: seq<set<nat>>) {
    if n == 0 then [] else Units(s, n - 1) + (if n - 1 in s then [{n - 1}] else [])
  }

  lemma {:induction false} UnitsMember(s: set<nat>, n: nat)
    ensures forall v :: v in Units(s, n) <==> exists b: nat :: b in s && b < n && v == {b}
    ensures DisjointSupports(Units(s, n)) && AllBelow(Units(s, n), n)
  {
    if n > 0 {
      UnitsMember(s, n - 1);
      var us := Units(s, n - 1);
      forall k | 0 <= k < |us|
        ensures us[k] !! {n - 1}
      {
        assert us[k] in us;
      }
    }
  }

  lemma {:induction false} UnitsSize(s: set<nat>, n: nat)
    requires Below(s, n)
    ensures |Units(s, n)| == |s|
  {
    if n > 0 {
      UnitsSize(s - {n - 1}, n - 1);
      UnitsAgree(s, s - {n - 1}, n - 1);
    }
  }

  lemma {:induction false} UnitsAgree(s: set<nat>, t: set<nat>, n: nat)
    requires forall b: nat :: b < n ==> (b in s <==> b in t)
    ensures Units(s, n) == Units(t, n)
  {
    if n > 0 {
      UnitsAgree(s, t, n - 1);
    }
  }

  /** Collects the unit vectors that are in, or not in, each of two sets, lowest first. */
  method SelectUnits(setSrc: set<set<nat>>, inSrc: bool, setDst: set<set<nat>>, inDst: bool, dim: nat,
                     ghost s: set<nat>)
    returns (us: seq<set<nat>>)
    requires forall b: nat :: b < dim ==> (b in s <==> ({b} in setSrc) == inSrc && ({b} in setDst) == inDst)
    ensures us == Units(s, dim)
  {
    us := [];
    for b := 0 to dim
      invariant us == Units(s, b)
    {
      if ({b} in setSrc) == inSrc && ({b} in setDst) == inDst {
        us := us + [{b}];
      }
    }
  }

  /** The bits whose unit vectors are in the list. */
  function UnitBits(us: seq<set<nat>>, dim: nat): (r: set<nat>)
    ensures forall b: nat :: b in r <==> b < dim && {b} in us
  {
    set b: nat | b < dim && {b} in us
  }

  /** How many bank conflicts are left among len segment vectors, with `free` unused bits and `pairs` pairs. */
  function LogConflicts(len: nat, pairs: nat, free: nat): nat {
    if free >= len then 0 else Min(Max(0, len - pairs - free), pairs)
  }

  /** The conflicts of a segment of len vectors between source bits S and destination bits D. */
  ghost function Conflicts(S: set<nat>, D: set<nat>, dim: nat, len: nat): nat {
    LogConflicts(len, Min(|S - D|, |D - S|), |Upto(dim) - S - D|)
  }

  /** Unused bits and pairs are the bits outside the larger of the two sets. */
  lemma FreeAndPairs(S: set<nat>, D: set<nat>, dim: nat)
    requires S <= Upto(dim) && D <= Upto(dim)
    ensures |Upto(dim) - S - D| + Min(|S - D|, |D - S|) == dim - Max(|S|, |D|)
  {
    hide Upto;
    var U := Upto(dim);
    assert |U| == dim;
    assert U == (U - S - D) + (S - D) + (D - S) + (S * D);
    assert S == (S - D) + (S * D) && D == (D - S) + (S * D);
  }

  /** There are as many conflicts as the larger set has bits that find no room beside the segment, one for each pair. */
  lemma ConflictCount(S: set<nat>, D: set<nat>, dim: nat, len: nat)
    requires S <= Upto(dim) && D <= Upto(dim)
    ensures Conflicts(S, D, dim, len) == Min(Max(0, len + Max(|S|, |D|) - dim), Min(|S - D|, |D - S|))
    ensures Conflicts(S, D, dim, len) == 0 <==> len + Max(|S|, |D|) <= dim || S <= D || D <= S
  {
    hide Upto;
    FreeAndPairs(S, D, dim);
    assert S <= D <==> |S - D| == 0 by { assert S - D == {} <==> S <= D; }
    assert D <= S <==> |D - S| == 0 by { assert D - S == {} <==> D <= S; }
  }

  /** What the segment must be, for source bits S and destination bits D. */
  ghost predicate IsSegment(segment: seq<set<nat>>, S: set<nat>, D: set<nat>, dim: nat, len: nat) {
    var pairs, free := Min(|S - D|, |D - S|), |Upto(dim) - S - D|;
    && |segment| == Min(len, free + 2 * pairs)
    && DisjointSupports(segment) && AllBelow(segment, dim)
    && (forall k :: 0 <= k < |segment| ==> segment[k] !! (S * D))
    && |Within(segment, S)| == Conflicts(S, D, dim, len) == |Within(segment, D)|
  }

  /** The sums of corresponding vectors. */
  function PairSums(a: seq<set<nat>>, b: seq<set<nat>>): (r: seq<set<nat>>)
    requires |a| == |b|
    ensures |r| == |a| && forall k :: 0 <= k < |a| ==> r[k] == Xor(a[k], b[k])
  {
    seq(|a|, k requires 0 <= k < |a| => Xor(a[k], b[k]))
  }

  lemma DisjointConcat(a: seq<set<nat>>, b: seq<set<nat>>)
    requires DisjointSupports(a) && DisjointSupports(b)
    requires forall i, j :: 0 <= i < |a| && 0 <= j < |b| ==> a[i] !! b[j]
    ensures DisjointSupports(a + b)
  {
  }

  /** Unit vectors of bits in a set: what the pieces of a segment are cut from. */
  ghost predicate UnitsOf(us: seq<set<nat>>, s: set<nat>, dim: nat) {
    DisjointSupports(us) && AllBelow(us, dim) && forall k :: 0 <= k < |us| ==> us[k] <= s
  }

  lemma PairSumsDisjoint(a: seq<set<nat>>, b: seq<set<nat>>, s: set<nat>, t: set<nat>, dim: nat)
    requires |a| == |b| && UnitsOf(a, s, dim) && UnitsOf(b, t, dim) && s !! t
    ensures UnitsOf(PairSums(a, b), s + t, dim)
    ensures forall k :: 0 <= k < |a| ==> !(PairSums(a, b)[k] <= s) && !(PairSums(a, b)[k] <= t)
  {
  }

  lemma Slices(us: seq<set<nat>>, s: set<nat>, dim: nat, i: nat, j: nat)
    requires UnitsOf(us, s, dim) && i <= j <= |us|
    ensures UnitsOf(us[i..j], s, dim)
  {
  }

  /** The untruncated segment: unused bits N, the paired rest of A and B, and the l conflicting ones of each. */
  lemma AssembledSegment(N: seq<set<nat>>, A: seq<set<nat>>, B: seq<set<nat>>, l: nat,
                         n: set<nat>, s: set<nat>, t: set<nat>, dim: nat)
    requires UnitsOf(N, n, dim) && UnitsOf(A, s, dim) && UnitsOf(B, t, dim)
    requires n !! s && n !! t && s !! t && l <= |A| <= |B|
    ensures var seg := N + PairSums(A[l..], B[l..|A|]) + A[..l] + B[..l];
      UnitsOf(seg, n + s + t, dim) && |seg| == |N| + |A| + l
    ensures var seg := N + PairSums(A[l..], B[l..|A|]) + A[..l] + B[..l];
      |Within(seg, s)| == l && |Within(seg, t)| == l
  {
    hide Within, UnitsOf, Xor;
    var X := PairSums(A[l..], B[l..|A|]);
    Slices(A, s, dim, l, |A|);
    Slices(A, s, dim, 0, l);
    Slices(B, t, dim, l, |A|);
    Slices(B, t, dim, 0, l);
    assert A[l..|A|] == A[l..] && A[0..l] == A[..l] && B[0..l] == B[..l];
    PairSumsDisjoint(A[l..], B[l..|A|], s, t, dim);
    AssembledDisjoint(N, X, A, B, l, n, s, t, dim);
    WithinPieces(N, X, A[..l], B[..l], s);
    WithinPieces(N, X, A[..l], B[..l], t);
    OutsideWithin(N, n, s, dim);
    OutsideWithin(N, n, t, dim);
    OutsideWithin(B[..l], t, s, dim);
    OutsideWithin(A[..l], s, t, dim);
    InsideWithin(A[..l], s, dim);
    InsideWithin(B[..l], t, dim);
  }

  /** The paired bits lie in neither set. */
  lemma WithinPieces(N: seq<set<nat>>, X: seq<set<nat>>, A: seq<set<nat>>, B: seq<set<nat>>, u: set<nat>)
    requires forall k :: 0 <= k < |X| ==> !(X[k] <= u)
    ensures Within(N + X + A + B, u) == Within(N, u) + Within(A, u) + Within(B, u)
  {
    hide Within;
    WithinConcat(N + X + A, B, u);
    WithinConcat(N + X, A, u);
    WithinConcat(N, X, u);
    WithinAllOrNone(X, u);
  }

  lemma InsideWithin(us: seq<set<nat>>, s: set<nat>, dim: nat)
    requires UnitsOf(us, s, dim)
    ensures Within(us, s) == us
  {
  }

  lemma OutsideWithin(us: seq<set<nat>>, s: set<nat>, u: set<nat>, dim: nat)
    requires UnitsOf(us, s, dim) && s !! u
    ensures Within(us, u) == []
  {
  }

  lemma AssembledDisjoint(N: seq<set<nat>>, X: seq<set<nat>>, A: seq<set<nat>>, B: seq<set<nat>>, l: nat,
                          n: set<nat>, s: set<nat>, t: set<nat>, dim: nat)
    requires UnitsOf(N, n, dim) && UnitsOf(A, s, dim) && UnitsOf(B, t, dim) && UnitsOf(X, s + t, dim)
    requires n !! s && n !! t && s !! t && l <= |A| <= |B| && |X| == |A| - l
    requires forall k :: 0 <= k < |X| ==> X[k] == Xor(A[l + k], B[l + k])
    ensures UnitsOf(N + X + A[..l] + B[..l], n + s + t, dim)
  {
  }

  /** Picks the vectors that start the segments, avoiding bank conflicts as far as it can. */
  method ComputeSegment(bankSrc: seq<set<nat>>, bankDst: seq<set<nat>>, dim: nat, lenSegment: nat)
    returns (segment: seq<set<nat>>)
    requires UnitsOrZero(bankSrc) && UnitsOrZero(bankDst) && AllBelow(bankSrc, dim) && AllBelow(bankDst, dim)
    ensures IsSegment(segment, UnitBits(bankSrc, dim), UnitBits(bankDst, dim), dim, lenSegment)
  {
    hide Upto, Units, Within, IsSegment, UnitBits, UnitsOf, UnitsOrZero, AllBelow;
    var setSrc := NonZero(bankSrc);
    var setDst := NonZero(bankDst);
    ghost var S, D, U := UnitBits(bankSrc, dim), UnitBits(bankDst, dim), Upto(dim);
    ghost var F, s, t := U - S - D, S - D, D - S;
    segment := SelectUnits(setSrc, false, setDst, false, dim, F);
    UnitsOfMembers(segment, F, dim);
    if |segment| >= lenSegment {
      EarlySegment(segment, S, D, dim, lenSegment);
      segment := segment[..lenSegment];
      return;
    }
    var A := SelectUnits(setSrc, true, setDst, false, dim, s);
    var B := SelectUnits(setSrc, false, setDst, true, dim, t);
    UnitsOfMembers(A, s, dim);
    UnitsOfMembers(B, t, dim);
    Regions(S, D, U);
    if |A| > |B| {
      segment := Assemble(segment, B, A, lenSegment, F, t, s, dim);
    } else {
      segment := Assemble(segment, A, B, lenSegment, F, s, t, dim);
    }
    AssembledIsSegment(segment, S, D, dim, lenSegment, LogConflicts(lenSegment, Min(|s|, |t|), |F|));
    if |segment| > lenSegment {
      segment := segment[..lenSegment];
    }
  }

  /** The set of the non-zero vectors of a list. */
  function NonZero(vs: seq<set<nat>>): (r: set<set<nat>>)
    ensures forall b: nat :: {b} in r <==> {b} in vs
  {
    (set v | v in vs) - {{}}
  }

  /** Adds to the unused bits the sums of paired bits, then the conflicting bits; A is the shorter list. */
  method Assemble(N: seq<set<nat>>, A: seq<set<nat>>, B: seq<set<nat>>, lenSegment: nat,
                  ghost n: set<nat>, ghost s: set<nat>, ghost t: set<nat>, ghost dim: nat)
    returns (segment: seq<set<nat>>)
    requires UnitsOf(N, n, dim) && UnitsOf(A, s, dim) && UnitsOf(B, t, dim)
    requires n !! s && n !! t && s !! t && |A| <= |B| && |N| < lenSegment
    ensures var l := LogConflicts(lenSegment, |A|, |N|);
      && UnitsOf(segment, n + s + t, dim) && |segment| == |N| + |A| + l
      && |Within(segment, s)| == l && |Within(segment, t)| == l
  {
    var logBankConflicts: nat := Min(Max(0, lenSegment - |A| - |N|), |A|);
    segment := N;
    for i := logBankConflicts to |A|
      invariant segment == N + PairSums(A[logBankConflicts..i], B[logBankConflicts..i])
    {
      segment := segment + [Xor(A[i], B[i])];
      assert PairSums(A[logBankConflicts..i + 1], B[logBankConflicts..i + 1])
          == PairSums(A[logBankConflicts..i], B[logBankConflicts..i]) + [Xor(A[i], B[i])];
    }
    segment := segment + A[..logBankConflicts];
    segment := segment + B[..logBankConflicts];
    assert A[logBankConflicts..|A|] == A[logBankConflicts..];
    AssembledSegment(N, A, B, logBankConflicts, n, s, t, dim);
  }

  lemma UnitsOfMembers(us: seq<set<nat>>, s: set<nat>, dim: nat)
    requires us == Units(s, dim)
    ensures UnitsOf(us, s, dim)
    ensures Below(s, dim) ==> |us| == |s|
  {
    if Below(s, dim) {
      UnitsSize(s, dim);
    }
    UnitsMember(s, dim);
    forall k | 0 <= k < |us|
      ensures us[k] <= s
    {
      assert us[k] in us;
    }
  }

  lemma PrefixWithin(vs: seq<set<nat>>, s: set<nat>, n: nat)
    requires n <= |vs| && Within(vs, s) == []
    ensures Within(vs[..n], s) == []
  {
    WithinConcat(vs[..n], vs[n..], s);
    assert vs[..n] + vs[n..] == vs;
  }

  lemma EarlySegment(us: seq<set<nat>>, S: set<nat>, D: set<nat>, dim: nat, len: nat)
    requires us == Units(Upto(dim) - S - D, dim) && |us| >= len && S <= Upto(dim) && D <= Upto(dim)
    ensures IsSegment(us[..len], S, D, dim, len)
  {
    hide Upto, Within, UnitsOf, Units, DisjointSupports, AllBelow;
    var F := Upto(dim) - S - D;
    UnitsOfMembers(us, F, dim);
    assert |us| == |F|;
    Slices(us, F, dim, 0, len);
    assert us[0..len] == us[..len];
    OutsideWithin(us[..len], F, S, dim);
    OutsideWithin(us[..len], F, D, dim);
    UnitsOfParts(us[..len], F, dim);
    SupportsAvoid(us[..len], F, S * D);
  }

  lemma UnitsOfParts(us: seq<set<nat>>, s: set<nat>, dim: nat)
    requires UnitsOf(us, s, dim)
    ensures DisjointSupports(us) && AllBelow(us, dim) && forall k :: 0 <= k < |us| ==> us[k] <= s
  {
  }

  lemma Regions(S: set<nat>, D: set<nat>, U: set<nat>)
    requires S <= U && D <= U
    ensures var T := U - S - D + (S - D) + (D - S);
      T == U - S - D + (D - S) + (S - D) && S * T == S - D && D * T == D - S && T !! (S * D)
  {
  }

  /** Truncation only happens when no conflict is left, so it removes none. */
  lemma AssembledIsSegment(seg: seq<set<nat>>, S: set<nat>, D: set<nat>, dim: nat, len: nat, l: nat)
    requires S <= Upto(dim) && D <= Upto(dim)
    requires var pairs, free := Min(|S - D|, |D - S|), |Upto(dim) - S - D|;
      free < len && l == LogConflicts(len, pairs, free) && |seg| == free + pairs + l
    requires UnitsOf(seg, Upto(dim) - S - D + (S - D) + (D - S), dim)
    requires |Within(seg, S - D)| == l == |Within(seg, D - S)|
    ensures IsSegment(if |seg| > len then seg[..len] else seg, S, D, dim, len)
  {
    hide Upto, Within, DisjointSupports, AllBelow;
    var T := Upto(dim) - S - D + (S - D) + (D - S);
    var R := S * D;
    assert T !! R && S * T == S - D && D * T == D - S by { Regions(S, D, Upto(dim)); }
    SameWithin(seg, S, S - D, T);
    SameWithin(seg, D, D - S, T);
    TruncateWithin(seg, S, D, T, R, dim, len, l);
  }

  lemma TruncateWithin(seg: seq<set<nat>>, S: set<nat>, D: set<nat>, T: set<nat>, R: set<nat>, dim: nat, len: nat,
                       l: nat)
    requires UnitsOf(seg, T, dim) && T !! R && R == S * D
    requires |Within(seg, S)| == l == |Within(seg, D)|
    requires var pairs, free := Min(|S - D|, |D - S|), |Upto(dim) - S - D|;
      free < len && l == LogConflicts(len, pairs, free) && |seg| == free + pairs + l
    ensures IsSegment(if |seg| > len then seg[..len] else seg, S, D, dim, len)
  {
    hide Upto, Within;
    if |seg| > len {
      PrefixWithin(seg, S, len);
      PrefixWithin(seg, D, len);
      Slices(seg, T, dim, 0, len);
      SupportsAvoid(seg[..len], T, R);
    } else {
      SupportsAvoid(seg, T, R);
    }
  }

  lemma SupportsAvoid(vs: seq<set<nat>>, t: set<nat>, u: set<nat>)
    requires t !! u && forall k :: 0 <= k < |vs| ==> vs[k] <= t
    ensures forall k :: 0 <= k < |vs| ==> vs[k] !! u
  {
  }

  lemma {:induction false} SameWithin(vs: seq<set<nat>>, s: set<nat>, s': set<nat>, t: set<nat>)
    requires s * t == s' && forall k :: 0 <= k < |vs| ==> vs[k] <= t
    ensures Within(vs, s) == Within(vs, s')
  {
    if vs != [] {
      SameWithin(vs[..|vs| - 1], s, s', t);
      assert vs[|vs| - 1] <= t;
    }
  }

  // ---------------------------------------------------------------- the swizzle

  /** The index of the highest set bit, and -1 for 0. */
  function Log2(n: nat): (r: int)
    ensures if n == 0 then r == -1 else r >= 0 && Pow(2, r) <= n < 2 * Pow(2, r)
  {
    if n <= 1 then n - 1 else 1 + Log2(n / 2)
  }

  const BANK_BITS: nat := 32 * 32

  /**
   * The bits of a bank segment not taken by the vector, as far as the tensor has bits for them: vector and
   * bank bits together fit a bank segment, and with one bit more they would fit it or the tensor no longer.  The
   * result is -1 for a vector that is larger than a bank segment.
   */
  function LenBankBasis(vectorBits: nat, bitwidth: nat, dim: nat): (r: int)
    requires bitwidth > 0 && vectorBits <= dim
    ensures -1 <= r <= dim - vectorBits && (r == -1 <==> Pow(2, vectorBits) * bitwidth > BANK_BITS)
    ensures r >= 0 ==> Pow(2, r) * (Pow(2, vectorBits) * bitwidth) <= BANK_BITS
    ensures 0 <= r < dim - vectorBits ==> Pow(2, r + 1) * (Pow(2, vectorBits) * bitwidth) > BANK_BITS
  {
    var unit := Pow(2, vectorBits) * bitwidth;
    assert unit > 0;
    var r := Min(Log2(BANK_BITS / unit), dim - vectorBits);
    BankFits(unit, r);
    BankIsFull(unit);
    r
  }

  lemma BankFits(unit: nat, r: int)
    requires unit > 0 && r <= Log2(BANK_BITS / unit)
    ensures BANK_BITS / unit == 0 <==> unit > BANK_BITS
    ensures r >= 0 ==> Pow(2, r) * unit <= BANK_BITS
  {
    hide Pow, Log2;
    var q := BANK_BITS / unit;
    ModuloBounds(BANK_BITS, unit);
    if r >= 0 {
      PowMonotone(2, r, Log2(q));
      TimesMonotone(Pow(2, r), q, unit);
    }
  }

  lemma BankIsFull(unit: nat)
    requires unit > 0
    ensures var r := Log2(BANK_BITS / unit);
      r >= 0 ==> Pow(2, r + 1) * unit > BANK_BITS
  {
    hide Pow, Log2;
    var q := BANK_BITS / unit;
    ModuloBounds(BANK_BITS, unit);
    if q > 0 {
      NextPower(Log2(q));
      TimesMonotone(q + 1, Pow(2, Log2(q) + 1), unit);
      Distribute(q, 1, unit);
    }
  }

  lemma NextPower(r: nat)
    ensures Pow(2, r + 1) == 2 * Pow(2, r)
  {
  }

  /**
   * Chooses the bank and segment bits for a vector basis.  Vector, segment and bank bits together are a
   * basis of the tensor's bits, and the segment is as conflict free as IsSegment says.
   */
  method OptimalSwizzling(vbasis: seq<set<nat>>, tileSrc: seq<set<nat>>, tileDst: seq<set<nat>>, bitwidth: nat,
                          dim: nat)
    returns (bbasis: seq<set<nat>>, sbasis: seq<set<nat>>)
    requires DisjointSupports(vbasis) && AllBelow(vbasis, dim)
    requires forall k :: 0 <= k < |vbasis| ==> IsPowerOf2(vbasis[k])
    requires UnitsOrZero(tileSrc) && UnitsOrZero(tileDst) && AllBelow(tileSrc, dim) && AllBelow(tileDst, dim)
    requires |vbasis| <= dim && bitwidth > 0
    ensures IsBasis(vbasis + sbasis + bbasis, dim)
    ensures var lenB := LenBankBasis(|vbasis|, bitwidth, dim);
      var lenS := dim - lenB - |vbasis|;
      && |bbasis| == lenB + (lenS - |sbasis|)
      && IsSegment(sbasis, UnitBits(vbasis + tileSrc, dim), UnitBits(vbasis + tileDst, dim), dim, lenS)
    ensures var S, D := UnitBits(vbasis + tileSrc, dim), UnitBits(vbasis + tileDst, dim);
      var lenB := LenBankBasis(|vbasis|, bitwidth, dim);
      var conflicts := Min(Max(0, Max(|S|, |D|) - |vbasis| - lenB), Min(|S - D|, |D - S|));
      |Within(sbasis, S)| == conflicts == |Within(sbasis, D)|
  {
    hide IsSegment, Independent, IsBasis, Pow, Log2, LenBankBasis, UnitBits, Upto, Within, UnitsOrZero, AllBelow,
      DisjointSupports, IsPowerOf2;
    var bankSrc := vbasis + tileSrc;
    var bankDst := vbasis + tileDst;
    BankShape(vbasis, tileSrc, dim);
    BankShape(vbasis, tileDst, dim);
    var lenBbasis := LenBankBasis(|vbasis|, bitwidth, dim);
    var lenSbasis := dim - lenBbasis - |vbasis|;
    sbasis := ComputeSegment(bankSrc, bankDst, dim, lenSbasis);
    var unionBasis := vbasis + sbasis;
    VectorAndSegmentIndependent(vbasis, sbasis, UnitBits(bankSrc, dim), UnitBits(bankDst, dim), dim, lenSbasis);
    bbasis := ComplementBasis(unionBasis, dim);
    SegmentConflictCount(sbasis, UnitBits(bankSrc, dim), UnitBits(bankDst, dim), dim, lenSbasis);
  }

  lemma BankShape(vbasis: seq<set<nat>>, tile: seq<set<nat>>, dim: nat)
    requires AllBelow(vbasis, dim) && forall k :: 0 <= k < |vbasis| ==> IsPowerOf2(vbasis[k])
    requires UnitsOrZero(tile) && AllBelow(tile, dim)
    ensures UnitsOrZero(vbasis + tile) && AllBelow(vbasis + tile, dim) && UnitBits(vbasis + tile, dim) <= Upto(dim)
    ensures forall b: nat :: b < dim && {b} in vbasis ==> b in UnitBits(vbasis + tile, dim)
  {
    hide IsPowerOf2;
  }

  lemma SegmentConflictCount(segment: seq<set<nat>>, S: set<nat>, D: set<nat>, dim: nat, len: nat)
    requires S <= Upto(dim) && D <= Upto(dim) && IsSegment(segment, S, D, dim, len)
    ensures var conflicts := Min(Max(0, len + Max(|S|, |D|) - dim), Min(|S - D|, |D - S|));
      |Within(segment, S)| == conflicts == |Within(segment, D)|
  {
    hide Within, Upto, DisjointSupports, Conflicts;
    ConflictCount(S, D, dim, len);
  }

  /** The segment avoids the bits that source and destination share, so it avoids the vector's. */
  lemma VectorAndSegmentIndependent(vbasis: seq<set<nat>>, sbasis: seq<set<nat>>, S: set<nat>, D: set<nat>, dim: nat,
                                    len: nat)
    requires DisjointSupports(vbasis) && AllBelow(vbasis, dim)
    requires forall k :: 0 <= k < |vbasis| ==> IsPowerOf2(vbasis[k])
    requires forall b: nat :: b < dim && {b} in vbasis ==> b in S && b in D
    requires IsSegment(sbasis, S, D, dim, len)
    ensures AllBelow(vbasis + sbasis, dim) && Independent(vbasis + sbasis) && |sbasis| <= len
  {
    forall i, j | 0 <= i < |vbasis| && 0 <= j < |sbasis|
      ensures vbasis[i] !! sbasis[j]
    {
      var t := UnitIsSingleton(vbasis[i]);
      assert Below(vbasis[i], dim);
      assert t in S * D;
    }
    DisjointConcat(vbasis, sbasis);
    DisjointIsIndependent(vbasis + sbasis);
  }

  /** The conflicts of a swizzle: the segment's span meets each bank tile's span in exactly LogConflicts dimensions. */
  lemma SegmentConflicts(segment: seq<set<nat>>, bankSrc: seq<set<nat>>, bankDst: seq<set<nat>>, dim: nat, len: nat)
    requires UnitsOrZero(bankSrc) && UnitsOrZero(bankDst) && AllBelow(bankSrc, dim) && AllBelow(bankDst, dim)
    requires IsSegment(segment, UnitBits(bankSrc, dim), UnitBits(bankDst, dim), dim, len)
    ensures var S, D := UnitBits(bankSrc, dim), UnitBits(bankDst, dim);
      var conflicts := Conflicts(S, D, dim, len);
      && IsIntersectionBasis(Within(segment, S), segment, bankSrc) && |Within(segment, S)| == conflicts
      && IsIntersectionBasis(Within(segment, D), segment, bankDst) && |Within(segment, D)| == conflicts
  {
    BitsOfUnits(bankSrc, dim);
    BitsOfUnits(bankDst, dim);
    WithinIsIntersection(segment, bankSrc, UnitBits(bankSrc, dim));
    WithinIsIntersection(segment, bankDst, UnitBits(bankDst, dim));
  }

  ghost predicate IsIntersectionBasis(r: seq<set<nat>>, b1: seq<set<nat>>, b2: seq<set<nat>>) {
    Independent(r) && forall v :: InSpan(v, r) <==> InSpan(v, b1) && InSpan(v, b2)
  }

  lemma BitsOfUnits(us: seq<set<nat>>, dim: nat)
    requires AllBelow(us, dim)
    ensures forall t :: t in UnitBits(us, dim) <==> {t} in us
  {
  }
}
