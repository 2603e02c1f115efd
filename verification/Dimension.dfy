/** How long independent lists can be, and how many dimensions a span must share with a coordinate subspace. */
module Dimension {
  import opened Basics
  import opened GF2
  import opened RowReduction

  // ---------------------------------------------------------------- eliminating one bit

  lemma {:induction false} ComboWithin(vs: seq<set<nat>>, x: set<nat>, u: set<nat>)
    requires forall k :: 0 <= k < |vs| ==> vs[k] <= u
    ensures Combo(vs, x) <= u
  {
    if vs != [] {
      ComboWithin(vs[..|vs| - 1], x, u);
    }
  }

  /** A list whose j-th vector alone has bit t, with the span and the independence of vs. */
  lemma IsolateBit(vs: seq<set<nat>>, j: nat, t: nat, u: set<nat>) returns (ws: seq<set<nat>>)
    requires j < |vs| && t in vs[j] && forall k :: 0 <= k < |vs| ==> vs[k] <= u
    ensures RowEquivalent(vs, ws) && t in ws[j]
    ensures forall k :: 0 <= k < |ws| ==> ws[k] <= u && (k != j ==> t !in ws[k])
  {
    hide InSpan, Independent;
    ws := vs;
    for i := 0 to |vs|
      invariant RowEquivalent(vs, ws) && t in ws[j]
      invariant forall k :: 0 <= k < |ws| ==> ws[k] <= u && (k < i && k != j ==> t !in ws[k])
    {
      if i != j && t in ws[i] {
        AddRow(ws, j, i);
        ws := ws[i := Xor(ws[i], ws[j])];
      }
    }
  }

  lemma PrefixIndependent(vs: seq<set<nat>>, n: nat)
    requires Independent(vs) && n <= |vs|
    ensures Independent(vs[..n])
  {
    forall x | Below(x, n) && Combo(vs[..n], x) == {}
      ensures x == {}
    {
      assert vs == vs[..n] + vs[n..];
      ComboConcat(vs[..n], vs[n..], x);
      ComboZero(vs[n..], set k | k in x && k >= n :: k - n);
    }
  }

  /** Giving up at most one vector, every vector can be made to lack bit t. */
  lemma DropBit(vs: seq<set<nat>>, t: nat, u: set<nat>) returns (ws: seq<set<nat>>)
    requires Independent(vs) && forall k :: 0 <= k < |vs| ==> vs[k] <= u
    ensures Independent(ws) && |ws| + 1 >= |vs|
    ensures forall k :: 0 <= k < |ws| ==> ws[k] <= u - {t} && InSpan(ws[k], vs)
  {
    if j: nat :| j < |vs| && t in vs[j] {
      hide Independent, InSpan;
      var apart := IsolateBit(vs, j, t, u);
      var last := |vs| - 1;
      var ordered := apart[j := apart[last]][last := apart[j]];
      SwapRows(apart, j, last);
      PrefixIndependent(ordered, last);
      ws := ordered[..last];
      forall k | 0 <= k < |ws|
        ensures ws[k] <= u - {t} && InSpan(ws[k], vs)
      {
        SpanContains(ordered, k);
      }
    } else {
      ws := vs;
      forall k | 0 <= k < |ws|
        ensures InSpan(ws[k], vs)
      {
        SpanContains(vs, k);
      }
    }
  }

  /** Giving up at most |t| vectors, every vector can be made to lie within s. */
  lemma {:induction false} Concentrate(vs: seq<set<nat>>, s: set<nat>, t: set<nat>) returns (ws: seq<set<nat>>)
    requires Independent(vs) && forall k :: 0 <= k < |vs| ==> vs[k] <= s + t
    ensures Independent(ws) && |ws| + |t| >= |vs|
    ensures forall k :: 0 <= k < |ws| ==> ws[k] <= s && InSpan(ws[k], vs)
    decreases t
  {
    if t == {} {
      ws := vs;
      forall k | 0 <= k < |ws|
        ensures InSpan(ws[k], vs)
      {
        SpanContains(vs, k);
      }
    } else {
      hide Independent, InSpan;
      var b :| b in t;
      var us := DropBit(vs, b, s + t);
      ws := Concentrate(us, s, t - {b});
      SpanMonotone(us, vs);
    }
  }

  // ---------------------------------------------------------------- dimension

  /** A space with n coordinates has no more than n independent vectors. */
  lemma IndependentBound(vs: seq<set<nat>>, u: set<nat>)
    requires Independent(vs) && forall k :: 0 <= k < |vs| ==> vs[k] <= u
    ensures |vs| <= |u|
  {
    var ws := Concentrate(vs, {}, u);
    if ws != [] {
      ComboUnit(ws, 0);
      var x: set<nat> := {0};
      assert Below(x, |ws|) && Combo(ws, x) == {};
    }
  }

  /** X holds, for each vector of a, a selection of b that adds up to it. */
  ghost predicate Expresses(b: seq<set<nat>>, X: seq<set<nat>>, a: seq<set<nat>>) {
    |X| == |a| && forall k :: 0 <= k < |a| ==> Below(X[k], |b|) && Combo(b, X[k]) == a[k]
  }

  lemma {:induction false} Coefficients(a: seq<set<nat>>, b: seq<set<nat>>) returns (X: seq<set<nat>>)
    requires forall k :: 0 <= k < |a| ==> InSpan(a[k], b)
    ensures Expresses(b, X, a)
  {
    if a == [] {
      X := [];
    } else {
      var n := |a| - 1;
      var init := Coefficients(a[..n], b);
      assert InSpan(a[n], b);
      var x :| Combo(b, x) == a[n];
      var x' := set k | k in x && k < |b|;
      ComboAgree(b, x, x');
      X := init + [x'];
    }
  }

  lemma {:induction false} ComboOfCombos(b: seq<set<nat>>, X: seq<set<nat>>, a: seq<set<nat>>, y: set<nat>)
    requires Expresses(b, X, a)
    ensures Combo(b, Combo(X, y)) == Combo(a, y)
  {
    if a == [] {
      ComboZero(b, {});
    } else {
      var n := |a| - 1;
      ComboOfCombos(b, X[..n], a[..n], y);
      ComboZero(b, {});
      ComboXor(b, Combo(X[..n], y), if n in y then X[n] else {});
    }
  }

  /** Independent vectors of a span are no more than the vectors that span it. */
  lemma Exchange(a: seq<set<nat>>, b: seq<set<nat>>)
    requires Independent(a) && forall k :: 0 <= k < |a| ==> InSpan(a[k], b)
    ensures |a| <= |b|
  {
    var X := Coefficients(a, b);
    forall y | Below(y, |X|) && Combo(X, y) == {}
      ensures y == {}
    {
      ComboOfCombos(b, X, a, y);
      ComboZero(b, {});
    }
    assert forall k :: 0 <= k < |X| ==> Below(X[k], |b|);
    IndependentBound(X, Upto(|b|));
  }

  /** All bases of one span have the same length. */
  lemma BasesHaveOneLength(a: seq<set<nat>>, b: seq<set<nat>>)
    requires Independent(a) && Independent(b) && forall v :: InSpan(v, a) <==> InSpan(v, b)
    ensures |a| == |b|
  {
    forall k | 0 <= k < |a|
      ensures InSpan(a[k], b)
    {
      SpanContains(a, k);
    }
    forall k | 0 <= k < |b|
      ensures InSpan(b[k], a)
    {
      SpanContains(b, k);
    }
    Exchange(a, b);
    Exchange(b, a);
  }

  /**
   * The span of independent vectors with bits in u meets the vectors within s in at least as many
   * dimensions as there are vectors beyond the bits of u outside s.
   */
  lemma MeetAtLeast(vs: seq<set<nat>>, s: set<nat>, u: set<nat>, r: seq<set<nat>>)
    requires Independent(vs) && (forall k :: 0 <= k < |vs| ==> vs[k] <= u) && s <= u
    requires forall v :: v <= s && InSpan(v, vs) ==> InSpan(v, r)
    ensures |r| + |u| >= |vs| + |s|
  {
    assert u == s + (u - s);
    var ws := Concentrate(vs, s, u - s);
    Exchange(ws, r);
  }
}
