/** Vectors over the two-element field as sets of their non-zero positions: combinations, spans, annihilators. */
module GF2 {

  // ---------------------------------------------------------------- vectors

  function Xor<T>(a: set<T>, b: set<T>): set<T> {
    (a - b) + (b - a)
  }

  predicate Odd<T>(s: set<T>) {
    |s| % 2 == 1
  }

  /** The inner product. */
  predicate Dot<T>(a: set<T>, b: set<T>) {
    Odd(a * b)
  }

  predicate Below(v: set<nat>, n: nat) {
    forall b :: b in v ==> b < n
  }

  predicate AllBelow(vs: seq<set<nat>>, n: nat) {
    forall k :: 0 <= k < |vs| ==> Below(vs[k], n)
  }

  lemma XorParity<T>(a: set<T>, b: set<T>)
    ensures Odd(Xor(a, b)) <==> Odd(a) != Odd(b)
  {
    assert a == (a - b) + (a * b) && b == (b - a) + (a * b);
    assert |Xor(a, b)| == |a - b| + |b - a|;
    assert |a| == |a - b| + |a * b| && |b| == |b - a| + |a * b|;
  }

  lemma DotXor<T>(w: set<T>, a: set<T>, b: set<T>)
    ensures Dot(w, Xor(a, b)) <==> Dot(w, a) != Dot(w, b)
    ensures Dot(Xor(a, b), w) <==> Dot(a, w) != Dot(b, w)
  {
    assert w * Xor(a, b) == Xor(w * a, w * b);
    assert Xor(a, b) * w == Xor(a * w, b * w);
    XorParity(w * a, w * b);
    XorParity(a * w, b * w);
  }

  lemma DotCommutes<T>(a: set<T>, b: set<T>)
    ensures Dot(a, b) <==> Dot(b, a)
  {
    assert a * b == b * a;
  }

  lemma DotUnit<T>(w: set<T>, t: T)
    ensures Dot(w, {t}) <==> t in w
    ensures Dot({t}, w) <==> t in w
  {
    assert w * {t} == if t in w then {t} else {};
    assert {t} * w == if t in w then {t} else {};
  }

  // ---------------------------------------------------------------- linear combinations

  /** The sum of the vectors at the positions in x: the matrix with these columns, applied to x. */
  function Combo<T>(cols: seq<set<T>>, x: set<nat>): set<T> {
    if cols == [] then {}
    else
      var n := |cols| - 1;
      Xor(Combo(cols[..n], x), if n in x then cols[n] else {})
  }

  ghost predicate InSpan<T>(v: set<T>, cols: seq<set<T>>) {
    exists x :: Combo(cols, x) == v
  }

  ghost predicate Independent<T>(cols: seq<set<T>>) {
    forall x :: Below(x, |cols|) && Combo(cols, x) == {} ==> x == {}
  }

  lemma {:induction false} ComboXor<T>(cols: seq<set<T>>, x: set<nat>, y: set<nat>)
    ensures Combo(cols, Xor(x, y)) == Xor(Combo(cols, x), Combo(cols, y))
  {
    if cols != [] {
      ComboXor(cols[..|cols| - 1], x, y);
    }
  }

  lemma {:induction false} ComboZero<T>(cols: seq<set<T>>, x: set<nat>)
    requires forall k :: k in x ==> k >= |cols|
    ensures Combo(cols, x) == {}
  {
    if cols != [] {
      ComboZero(cols[..|cols| - 1], x);
    }
  }

  /** Only the positions that exist matter. */
  lemma {:induction false} ComboAgree<T>(cols: seq<set<T>>, x: set<nat>, y: set<nat>)
    requires forall k :: 0 <= k < |cols| ==> (k in x <==> k in y)
    ensures Combo(cols, x) == Combo(cols, y)
  {
    if cols != [] {
      ComboAgree(cols[..|cols| - 1], x, y);
    }
  }

  lemma {:induction false} ComboUnit<T>(cols: seq<set<T>>, i: nat)
    requires i < |cols|
    ensures Combo(cols, {i}) == cols[i]
  {
    var n := |cols| - 1;
    if i == n {
      ComboZero(cols[..n], {i});
    } else {
      ComboUnit(cols[..n], i);
    }
  }

  lemma {:induction false} ComboUpdate<T>(cols: seq<set<T>>, j: nat, v: set<T>, x: set<nat>)
    requires j < |cols|
    ensures Combo(cols[j := v], x) == if j in x then Xor(Combo(cols, x), Xor(cols[j], v)) else Combo(cols, x)
  {
    var n := |cols| - 1;
    if j == n {
      assert cols[j := v][..n] == cols[..n];
    } else {
      assert cols[j := v][..n] == cols[..n][j := v];
      ComboUpdate(cols[..n], j, v, x);
    }
  }

  lemma {:induction false} ComboConcat<T>(a: seq<set<T>>, b: seq<set<T>>, x: set<nat>)
    ensures Combo(a + b, x) == Xor(Combo(a, x), Combo(b, set k | k in x && k >= |a| :: k - |a|))
  {
    var y := set k | k in x && k >= |a| :: k - |a|;
    if b == [] {
      assert a + b == a;
    } else {
      var n := |b| - 1;
      assert (a + b)[..|a| + n] == a + b[..n];
      ComboConcat(a, b[..n], x);
      assert n in y <==> |a| + n in x by {
        if n in y {
          var k :| k in x && k >= |a| && k - |a| == n;
        }
      }
    }
  }

  lemma OddPlusOne<T>(s: set<T>, t: T)
    requires t !in s
    ensures Odd(s + {t}) <==> !Odd(s)
  {
  }

  /** A bit of a combination is set when an odd number of the chosen vectors have it. */
  lemma {:induction false} ComboBit<T>(cols: seq<set<T>>, x: set<nat>, t: T)
    ensures t in Combo(cols, x) <==> Odd(Row(cols, t) * x)
  {
    if cols == [] {
      assert Row(cols, t) * x == {};
    } else {
      var n := |cols| - 1;
      ComboBit(cols[..n], x, t);
      var rest := Row(cols[..n], t) * x;
      OddPlusOne(rest, n);
      if n in x && t in cols[n] {
        assert Row(cols, t) * x == rest + {n};
      } else {
        assert Row(cols, t) * x == rest;
      }
    }
  }

  /** The positions of the vectors that have bit t: a row of the matrix with these columns. */
  function Row<T>(cols: seq<set<T>>, t: T): (r: set<nat>)
    ensures forall c: nat :: c in r <==> c < |cols| && t in cols[c]
  {
    set c: nat | c < |cols| && t in cols[c]
  }

  // ---------------------------------------------------------------- spans

  lemma SpanContains<T>(cols: seq<set<T>>, i: nat)
    requires i < |cols|
    ensures InSpan(cols[i], cols)
  {
    ComboUnit(cols, i);
  }

  lemma SpanXor<T>(cols: seq<set<T>>, u: set<T>, v: set<T>)
    requires InSpan(u, cols) && InSpan(v, cols)
    ensures InSpan(Xor(u, v), cols)
  {
    var x :| Combo(cols, x) == u;
    var y :| Combo(cols, y) == v;
    ComboXor(cols, x, y);
  }

  lemma SpanZero<T>(cols: seq<set<T>>)
    ensures InSpan({}, cols)
  {
    ComboZero(cols, {});
  }

  /** A span contains every combination of vectors it contains. */
  lemma {:induction false} SpanClosed<T>(vs: seq<set<T>>, cols: seq<set<T>>, x: set<nat>)
    requires forall k :: 0 <= k < |vs| && k in x ==> InSpan(vs[k], cols)
    ensures InSpan(Combo(vs, x), cols)
  {
    SpanZero(cols);
    if vs != [] {
      var n := |vs| - 1;
      SpanClosed(vs[..n], cols, x);
      SpanXor(cols, Combo(vs[..n], x), if n in x then vs[n] else {});
    }
  }

  lemma SpanMonotone<T(!new)>(vs: seq<set<T>>, cols: seq<set<T>>)
    requires forall k :: 0 <= k < |vs| ==> InSpan(vs[k], cols)
    ensures forall v :: InSpan(v, vs) ==> InSpan(v, cols)
  {
    forall v | InSpan(v, vs)
      ensures InSpan(v, cols)
    {
      var x :| Combo(vs, x) == v;
      SpanClosed(vs, cols, x);
    }
  }

  /** w is orthogonal to each of the vectors. */
  ghost predicate Annihilates<T>(w: set<T>, cols: seq<set<T>>) {
    forall k :: 0 <= k < |cols| ==> !Dot(w, cols[k])
  }

  lemma {:induction false} AnnihilatesSpan<T>(w: set<T>, cols: seq<set<T>>, x: set<nat>)
    requires Annihilates(w, cols)
    ensures !Dot(w, Combo(cols, x))
  {
    if cols == [] {
      assert w * Combo(cols, x) == {};
    } else {
      var n := |cols| - 1;
      AnnihilatesSpan(w, cols[..n], x);
      DotXor(w, Combo(cols[..n], x), if n in x then cols[n] else {});
      assert !Dot(w, cols[n]) && w * {} == {};
    }
  }

  /** Outside a span there is a functional that vanishes on the span and not on the vector. */
  lemma {:induction false} SeparatingFunctional<T>(cols: seq<set<T>>, y: set<T>, univ: set<T>) returns (w: set<T>)
    requires !InSpan(y, cols)
    requires y <= univ && forall k :: 0 <= k < |cols| ==> cols[k] <= univ
    ensures w <= univ && Annihilates(w, cols) && Dot(w, y)
    decreases |cols|
  {
    if cols == [] {
      assert Combo(cols, {}) == {};
      var t :| t in y;
      w := {t};
      DotUnit(y, t);
    } else {
      var n := |cols| - 1;
      var init, v := cols[..n], cols[n];
      NotInSmallerSpan(cols, y);
      w := SeparatingFunctional(init, y, univ);
      if Dot(w, v) {
        var w2 := SeparatingFunctional(init, Xor(y, v), univ);
        DotXor(w2, y, v);
        if Dot(w2, y) {
          w := w2;
        } else {
          forall k | 0 <= k < |cols|
            ensures !Dot(Xor(w, w2), cols[k])
          {
            DotXor(cols[k], w, w2);
          }
          DotXor(y, w, w2);
          w := Xor(w, w2);
        }
      }
    }
  }

  lemma NotInSmallerSpan<T>(cols: seq<set<T>>, y: set<T>)
    requires cols != [] && !InSpan(y, cols)
    ensures var n := |cols| - 1;
      !InSpan(y, cols[..n]) && !InSpan(Xor(y, cols[n]), cols[..n])
  {
    var n := |cols| - 1;
    forall x
      ensures Combo(cols[..n], x) != y && Combo(cols[..n], x) != Xor(y, cols[n])
    {
      ComboAgree(cols[..n], x, x - {n});
      ComboAgree(cols[..n], x, x + {n});
      assert Combo(cols, x - {n}) == Combo(cols[..n], x - {n});
      assert Combo(cols, x + {n}) == Xor(Combo(cols[..n], x + {n}), cols[n]);
    }
  }

  /** The annihilator of the annihilator of a set of vectors is their span. */
  lemma DoubleAnnihilator<T(!new)>(cols: seq<set<T>>, y: set<T>, univ: set<T>)
    requires y <= univ && forall k :: 0 <= k < |cols| ==> cols[k] <= univ
    ensures InSpan(y, cols) <==> forall w :: w <= univ && Annihilates(w, cols) ==> !Dot(w, y)
  {
    if InSpan(y, cols) {
      var x :| Combo(cols, x) == y;
      forall w | w <= univ && Annihilates(w, cols)
        ensures !Dot(w, y)
      {
        AnnihilatesSpan(w, cols, x);
      }
    } else {
      var w := SeparatingFunctional(cols, y, univ);
    }
  }
}
