/** The product of layouts and the order of its dimensions. */
module LayoutProducts {
  import opened Basics
  import opened GF2
  import opened Layouts
  import opened LayoutMatrix

  // ---------------------------------------------------------------- merging dimension orders

  /** The names common to both lists come in the same order. */
  ghost predicate SameOrder<T>(x: seq<T>, y: seq<T>) {
    forall i, j, k, l :: 0 <= i < j < |x| && 0 <= k < |y| && 0 <= l < |y| && x[i] == y[k] && x[j] == y[l] ==> k < l
  }

  /** A duplicate-free list of the names of both. */
  ghost predicate IsMerge<T(!new)>(r: seq<T>, x: seq<T>, y: seq<T>) {
    NoDup(r) && forall e :: e in r <==> e in x || e in y
  }

  /** A merge that keeps the order of both lists. */
  ghost predicate IsSupersequence<T(!new)>(r: seq<T>, x: seq<T>, y: seq<T>) {
    IsMerge(r, x, y) && SameOrder(x, r) && SameOrder(y, r)
  }

  /** Name f of y has to come before name e of x: it is before a common name that is e or before e. */
  ghost predicate Forced<T>(x: seq<T>, y: seq<T>, f: T, e: T) {
    exists k, l, a, b ::
      0 <= k < l < |y| && 0 <= a <= b < |x| && y[k] == f && y[l] == x[a] && x[b] == e
  }

  /** The names of x come as early as possible: a name of y alone is before one of x only where it has to be. */
  ghost predicate PutsFirst<T>(r: seq<T>, x: seq<T>, y: seq<T>) {
    forall p, q :: 0 <= p < q < |r| && r[p] !in x && r[q] in x ==> Forced(x, y, r[p], r[q])
  }

  lemma PositionOf<T>(s: seq<T>, e: T) returns (k: nat)
    requires e in s
    ensures k < |s| && s[k] == e
  {
    k :| 0 <= k < |s| && s[k] == e;
  }

  /** Only lists whose common names come in the same order have such a merge. */
  lemma SupersequenceNeedsSameOrder<T(!new)>(r: seq<T>, x: seq<T>, y: seq<T>)
    requires NoDup(x) && NoDup(y) && IsSupersequence(r, x, y)
    ensures SameOrder(x, y)
  {
    forall i, j, k, l | 0 <= i < j < |x| && 0 <= k < |y| && 0 <= l < |y| && x[i] == y[k] && x[j] == y[l]
      ensures k < l
    {
      var p := PositionOf(r, x[i]);
      var q := PositionOf(r, x[j]);
      assert p < q;
    }
  }

  lemma AppendInOrder<T>(x: seq<T>, r: seq<T>, i: nat)
    requires NoDup(x) && SameOrder(x, r) && i < |x| && forall k :: i <= k < |x| ==> x[k] !in r
    ensures SameOrder(x, r + [x[i]]) && forall k :: i + 1 <= k < |x| ==> x[k] !in r + [x[i]]
  {
  }

  lemma AppendForeign<T>(x: seq<T>, r: seq<T>, e: T)
    requires SameOrder(x, r) && e !in x
    ensures SameOrder(x, r + [e])
  {
  }

  /** What the merge has done after i names of x and j of y. */
  ghost predicate Merging<T(!new)>(result: seq<T>, x: seq<T>, y: seq<T>, i: nat, j: nat) {
    && i <= |x| && j <= |y| && NoDup(result)
    && (forall e :: e in result ==> e in x || e in y)
    && (forall k :: 0 <= k < i ==> x[k] in result)
    && (forall k :: 0 <= k < j ==> y[k] in result)
    && (SameOrder(x, y) ==> OnTrack(result, x, y, i, j))
  }

  ghost predicate OnTrack<T>(result: seq<T>, x: seq<T>, y: seq<T>, i: nat, j: nat)
    requires i <= |x| && j <= |y|
  {
    && SameOrder(x, result) && SameOrder(y, result)
    && (forall k :: i <= k < |x| ==> x[k] !in result)
    && (forall k :: j <= k < |y| ==> y[k] !in result)
    && PutsFirst(result, x, y)
    && forall p, b :: 0 <= p < |result| && result[p] !in x && i <= b < |x| ==> Forced(x, y, result[p], x[b])
  }

  /** A name of x may follow what has been collected. */
  lemma PutLeft<T(!new)>(result: seq<T>, x: seq<T>, y: seq<T>, i: nat, j: nat)
    requires i < |x| && j <= |y| && OnTrack(result, x, y, i, j)
    ensures var r := result + [x[i]];
      && PutsFirst(r, x, y)
      && forall p, b :: 0 <= p < |r| && r[p] !in x && i + 1 <= b < |x| ==> Forced(x, y, r[p], x[b])
  {
    hide Forced, SameOrder;
  }

  /** A name of y alone may, if the next name of x is also in y and further behind. */
  lemma PutRight<T(!new)>(result: seq<T>, x: seq<T>, y: seq<T>, i: nat, j: nat)
    requires i <= |x| && j < |y| && OnTrack(result, x, y, i, j) && y[j] !in x && (i < |x| ==> x[i] in y)
    requires forall k :: 0 <= k < j ==> y[k] in result
    ensures var r := result + [y[j]];
      && PutsFirst(r, x, y)
      && forall p, b :: 0 <= p < |r| && r[p] !in x && i <= b < |x| ==> Forced(x, y, r[p], x[b])
  {
    hide SameOrder;
    forall b | i <= b < |x|
      ensures Forced(x, y, y[j], x[b])
    {
      var l := PositionOf(y, x[i]);
      assert j < l;
    }
    hide Forced;
  }

  lemma MergeCommon<T(!new)>(result: seq<T>, x: seq<T>, y: seq<T>, i: nat, j: nat)
    requires NoDup(x) && NoDup(y) && Merging(result, x, y, i, j)
    requires i < |x| && j < |y| && x[i] == y[j] && x[i] !in result
    ensures Merging(result + [x[i]], x, y, i + 1, j + 1)
  {
    if SameOrder(x, y) {
      AppendInOrder(x, result, i);
      AppendInOrder(y, result, j);
      PutLeft(result, x, y, i, j);
    }
  }

  /** Takes a name of x, when it is not in y or, for lists with inconsistent orders, in any case. */
  lemma MergeLeft<T(!new)>(result: seq<T>, x: seq<T>, y: seq<T>, i: nat, j: nat)
    requires NoDup(x) && NoDup(y) && Merging(result, x, y, i, j) && i < |x| && x[i] !in result
    requires x[i] in y ==> !SameOrder(x, y)
    ensures Merging(result + [x[i]], x, y, i + 1, j)
  {
    if SameOrder(x, y) {
      AppendInOrder(x, result, i);
      AppendForeign(y, result, x[i]);
      PutLeft(result, x, y, i, j);
    }
  }

  lemma MergeRight<T(!new)>(result: seq<T>, x: seq<T>, y: seq<T>, i: nat, j: nat)
    requires NoDup(x) && NoDup(y) && Merging(result, x, y, i, j) && j < |y| && y[j] !in result
    requires (y[j] in x ==> !SameOrder(x, y)) && (i < |x| ==> x[i] in y)
    ensures Merging(result + [y[j]], x, y, i, j + 1)
  {
    if SameOrder(x, y) {
      AppendInOrder(y, result, j);
      AppendForeign(x, result, y[j]);
      PutRight(result, x, y, i, j);
    }
  }

  /** The place of a name in a list, or the length of the list. */
  function PlaceOf(s: seq<Dim>, e: Dim): (k: nat)
    ensures k <= |s| && (k < |s| ==> s[k] == e) && (k == |s| ==> e !in s)
  {
    if s == [] then 0 else if s[0] == e then 0 else 1 + PlaceOf(s[1..], e)
  }

  /** The positions of the elements of a duplicate-free list. */
  method Positions(x: seq<Dim>) returns (pos: map<Dim, nat>)
    requires NoDup(x)
    ensures IsPositions(pos, x)
  {
    pos := map[];
    for k := 0 to |x|
      invariant forall e :: e in pos <==> e in x[..k]
      invariant forall e :: e in pos ==> pos[e] < k && x[pos[e]] == e
    {
      pos := pos[x[k] := k];
    }
  }

  /** The merge of what is left of x from i and of y from j, once result has been collected. */
  function MergeFrom(x: seq<Dim>, y: seq<Dim>, i: nat, j: nat, result: seq<Dim>): seq<Dim>
    requires i <= |x| && j <= |y|
    decreases |x| - i + |y| - j
  {
    if i < |x| && x[i] in result then MergeFrom(x, y, i + 1, j, result)
    else if j < |y| && y[j] in result then MergeFrom(x, y, i, j + 1, result)
    else if i == |x| && j == |y| then result
    else if i == |x| then MergeFrom(x, y, i, j + 1, result + [y[j]])
    else if j == |y| then MergeFrom(x, y, i + 1, j, result + [x[i]])
    else if x[i] == y[j] then MergeFrom(x, y, i + 1, j + 1, result + [x[i]])
    else if x[i] in y && (y[j] !in x || PlaceOf(x, y[j]) < PlaceOf(y, x[i])) then
      MergeFrom(x, y, i, j + 1, result + [y[j]])
    else MergeFrom(x, y, i + 1, j, result + [x[i]])
  }

  function Merged(x: seq<Dim>, y: seq<Dim>): seq<Dim> {
    MergeFrom(x, y, 0, 0, [])
  }

  ghost predicate IsPositions(pos: map<Dim, nat>, x: seq<Dim>) {
    (forall e :: e in pos <==> e in x) && forall e :: e in pos ==> pos[e] == PlaceOf(x, e)
  }

  /** What one round of the loop adds, in terms of its two candidates. */
  lemma MergeRound(x: seq<Dim>, y: seq<Dim>, i: nat, j: nat, result: seq<Dim>, candX: nat, candY: nat, inf: nat)
    requires i <= |x| && j <= |y| && (i < |x| || j < |y|) && inf > |x| && inf > |y|
    requires i < |x| ==> x[i] !in result
    requires j < |y| ==> y[j] !in result
    requires !(i < |x| && j < |y| && x[i] == y[j])
    requires candX == if i < |x| && x[i] in y then PlaceOf(y, x[i]) else inf
    requires candY == if j < |y| && y[j] in x then PlaceOf(x, y[j]) else inf
    ensures MergeFrom(x, y, i, j, result) ==
      if i < |x| && (candX == inf || j == |y| || (candY < inf && candX <= candY)) then
        MergeFrom(x, y, i + 1, j, result + [x[i]])
      else MergeFrom(x, y, i, j + 1, result + [y[j]])
  {
  }

  lemma MergeSkips(x: seq<Dim>, y: seq<Dim>, i: nat, j: nat, result: seq<Dim>)
    requires i <= |x| && j <= |y|
    ensures i < |x| && x[i] in result ==> MergeFrom(x, y, i, j, result) == MergeFrom(x, y, i + 1, j, result)
    ensures (i < |x| ==> x[i] !in result) && j < |y| && y[j] in result ==>
      MergeFrom(x, y, i, j, result) == MergeFrom(x, y, i, j + 1, result)
    ensures i == |x| && j == |y| ==> MergeFrom(x, y, i, j, result) == result
    ensures i < |x| && j < |y| && x[i] == y[j] && x[i] !in result ==>
      MergeFrom(x, y, i, j, result) == MergeFrom(x, y, i + 1, j + 1, result + [x[i]])
  {
  }

  /**
   * Merges two lists of dimension names.  It never fails: the two points where it could report that no
   * supremum exists are not reachable.  The result keeps both orders exactly when they are compatible, and then
   * takes the names of x as early as possible.
   */
  method Supremum(x: seq<Dim>, y: seq<Dim>) returns (result: seq<Dim>)
    requires NoDup(x) && NoDup(y)
    ensures result == Merged(x, y)
    ensures IsMerge(result, x, y)
    ensures IsSupersequence(result, x, y) <==> SameOrder(x, y)
    ensures SameOrder(x, y) ==> PutsFirst(result, x, y)
  {
    hide SameOrder, Merging, IsMerge, MergeFrom, PlaceOf, IsPositions, PutsFirst;
    result := [];
    var posX := Positions(x);
    var posY := Positions(y);
    var i, j := 0, 0;
    var inf := |x| + |y| + 1;
    StartMerging(x, y);
    while i < |x| || j < |y|
      invariant Merging(result, x, y, i, j) && i <= |x| && j <= |y|
      invariant MergeFrom(x, y, i, j, result) == MergeFrom(x, y, 0, 0, [])
      decreases |x| - i + |y| - j
    {
      ghost var i0, j0 := i, j;
      i, j := SkipTaken(x, y, result, i, j);
      if i >= |x| && j >= |y| {
        break;
      }
      Ahead(result, x, y, i, j, posX, posY);
      if i < |x| && j < |y| && x[i] == y[j] {
        assert !(posY[x[i]] < j);
        MergeCommon(result, x, y, i, j);
        MergeSkips(x, y, i, j, result);
        result := result + [x[i]];
        i, j := i + 1, j + 1;
        continue;
      }
      var candX, candY := inf, inf;
      if i < |x| && x[i] in posY && posY[x[i]] >= j {
        candX := posY[x[i]];
      }
      if j < |y| && y[j] in posX && posX[y[j]] >= i {
        candY := posX[y[j]];
      }
      MergeRound(x, y, i, j, result, candX, candY, inf);
      if i < |x| && candX == inf {
        MergeLeft(result, x, y, i, j);
        result := result + [x[i]];
        i := i + 1;
        continue;
      }
      if j < |y| && candY == inf {
        MergeRight(result, x, y, i, j);
        result := result + [y[j]];
        j := j + 1;
        continue;
      }
      Crossing(x, y, i, j, posX[y[j]], posY[x[i]]);
      if candX <= candY {
        assert !(posY[x[i]] < j);
        MergeLeft(result, x, y, i, j);
        result := result + [x[i]];
        i := i + 1;
      } else {
        assert !(posX[y[j]] < i);
        MergeRight(result, x, y, i, j);
        result := result + [y[j]];
        j := j + 1;
      }
    }
    MergeSkips(x, y, i, j, result);
    EndMerging(result, x, y);
  }

  /** Moves past the names already taken. */
  method SkipTaken(x: seq<Dim>, y: seq<Dim>, result: seq<Dim>, i0: nat, j0: nat) returns (i: nat, j: nat)
    requires Merging(result, x, y, i0, j0) && i0 <= |x| && j0 <= |y|
    ensures Merging(result, x, y, i, j) && i0 <= i <= |x| && j0 <= j <= |y|
    ensures (i < |x| ==> x[i] !in result) && (j < |y| ==> y[j] !in result)
    ensures MergeFrom(x, y, i, j, result) == MergeFrom(x, y, i0, j0, result)
  {
    hide Merging, MergeFrom;
    i, j := i0, j0;
    while i < |x| && x[i] in result
      invariant Merging(result, x, y, i, j) && i0 <= i <= |x|
      invariant MergeFrom(x, y, i, j, result) == MergeFrom(x, y, i0, j0, result)
    {
      SkipLeft(result, x, y, i, j);
      MergeSkips(x, y, i, j, result);
      i := i + 1;
    }
    while j < |y| && y[j] in result
      invariant Merging(result, x, y, i, j) && j0 <= j <= |y|
      invariant MergeFrom(x, y, i, j, result) == MergeFrom(x, y, i0, j0, result)
    {
      SkipRight(result, x, y, i, j);
      MergeSkips(x, y, i, j, result);
      j := j + 1;
    }
  }

  lemma StartMerging<T(!new)>(x: seq<T>, y: seq<T>)
    ensures Merging([], x, y, 0, 0)
  {
  }

  lemma SkipLeft<T(!new)>(result: seq<T>, x: seq<T>, y: seq<T>, i: nat, j: nat)
    requires Merging(result, x, y, i, j) && i < |x| && x[i] in result
    ensures Merging(result, x, y, i + 1, j)
  {
  }

  lemma SkipRight<T(!new)>(result: seq<T>, x: seq<T>, y: seq<T>, i: nat, j: nat)
    requires Merging(result, x, y, i, j) && j < |y| && y[j] in result
    ensures Merging(result, x, y, i, j + 1)
  {
  }

  /** A name not yet taken that is in the other list lies ahead there. */
  lemma Ahead(result: seq<Dim>, x: seq<Dim>, y: seq<Dim>, i: nat, j: nat, posX: map<Dim, nat>, posY: map<Dim, nat>)
    requires Merging(result, x, y, i, j) && IsPositions(posX, x) && IsPositions(posY, y)
    ensures forall e :: e in posX <==> e in x
    ensures forall e :: e in posY <==> e in y
    ensures i < |x| && x[i] !in result && x[i] in y ==>
      j <= posY[x[i]] < |y| && y[posY[x[i]]] == x[i] && posY[x[i]] == PlaceOf(y, x[i])
    ensures j < |y| && y[j] !in result && y[j] in x ==>
      i <= posX[y[j]] < |x| && x[posX[y[j]]] == y[j] && posX[y[j]] == PlaceOf(x, y[j])
  {
  }

  /** Two names that each wait behind the other cross. */
  lemma Crossing<T>(x: seq<T>, y: seq<T>, i: nat, j: nat, k: nat, l: nat)
    requires i < k < |x| && j < l < |y| && x[k] == y[j] && y[l] == x[i]
    ensures !SameOrder(x, y)
  {
  }

  lemma EndMerging(result: seq<Dim>, x: seq<Dim>, y: seq<Dim>)
    requires NoDup(x) && NoDup(y) && Merging(result, x, y, |x|, |y|)
    ensures IsMerge(result, x, y)
    ensures IsSupersequence(result, x, y) <==> SameOrder(x, y)
    ensures SameOrder(x, y) ==> PutsFirst(result, x, y)
  {
  }

  /** For compatible lists this leaves only one merge. */
  lemma MergeIsDetermined(r: seq<Dim>, t: seq<Dim>, x: seq<Dim>, y: seq<Dim>)
    requires NoDup(x) && NoDup(y)
    requires IsSupersequence(r, x, y) && PutsFirst(r, x, y) && IsSupersequence(t, x, y) && PutsFirst(t, x, y)
    ensures r == t
  {
    hide SameOrder, PutsFirst, Forced;
    forall i, j, k, l | 0 <= i < j < |r| && 0 <= k < |t| && 0 <= l < |t| && r[i] == t[k] && r[j] == t[l]
      ensures k < l
    {
      SamePlaces(r, t, x, y, i, j, k, l);
    }
    SameOrderIsSame(r, t);
  }

  lemma SamePlaces(r: seq<Dim>, t: seq<Dim>, x: seq<Dim>, y: seq<Dim>, i: nat, j: nat, k: nat, l: nat)
    requires NoDup(x) && NoDup(y)
    requires IsSupersequence(r, x, y) && PutsFirst(r, x, y) && IsSupersequence(t, x, y) && PutsFirst(t, x, y)
    requires i < j < |r| && k < |t| && l < |t| && r[i] == t[k] && r[j] == t[l]
    ensures k < l
  {
    hide SameOrder, Forced;
    assert r[i] != r[j] && r[i] in r && r[j] in r;
    if r[i] in x && r[j] in x {
      InOrderOf(x, r, t, i, j, k, l);
    } else if r[i] in y && r[j] in y {
      InOrderOf(y, r, t, i, j, k, l);
    } else if r[i] in x {
      if l < k {
        assert Forced(x, y, t[l], t[k]);
        ForcedComesFirst(r, x, y, j, i);
      }
    } else {
      assert Forced(x, y, r[i], r[j]);
      ForcedComesFirst(t, x, y, k, l);
    }
  }

  lemma InOrderOf(x: seq<Dim>, r: seq<Dim>, t: seq<Dim>, i: nat, j: nat, k: nat, l: nat)
    requires NoDup(r) && SameOrder(x, r) && SameOrder(x, t) && i < j < |r| && l < |t| && k < |t|
    requires r[i] == t[k] && r[j] == t[l] && r[i] in x && r[j] in x
    ensures k < l
  {
    var a := PositionOf(x, r[i]);
    var b := PositionOf(x, r[j]);
    assert a != b && !(b < a);
  }

  lemma ForcedComesFirst(r: seq<Dim>, x: seq<Dim>, y: seq<Dim>, p: nat, q: nat)
    requires IsSupersequence(r, x, y) && p < |r| && q < |r| && Forced(x, y, r[p], r[q])
    ensures p < q
  {
    var k, l, a, b :| 0 <= k < l < |y| && 0 <= a <= b < |x| && y[k] == r[p] && y[l] == x[a] && x[b] == r[q];
    var m := PositionOf(r, x[a]);
    assert p < m;
    assert a < b ==> m < q;
  }

  lemma {:induction false} SameOrderIsSame(r: seq<Dim>, t: seq<Dim>)
    requires NoDup(r) && NoDup(t) && (forall e :: e in r <==> e in t)
    requires forall i, j, k, l ::
      0 <= i < j < |r| && 0 <= k < |t| && 0 <= l < |t| && r[i] == t[k] && r[j] == t[l] ==> k < l
    ensures r == t
  {
    if r == [] {
      if t != [] {
        var e := FirstName(t);
      }
    } else {
      var n := |r| - 1;
      assert r[n] in t;
      var k := PositionOf(t, r[n]);
      var m := |t| - 1;
      assert t[m] in t;
      var i := PositionOf(r, t[m]);
      assert i == n || m < k;
      forall e
        ensures e in r[..n] <==> e in t[..m]
      {
        DropLast(r, e);
        DropLast(t, e);
      }
      SameOrderIsSame(r[..n], t[..m]);
      assert r == r[..n] + [r[n]] && t == t[..m] + [t[m]];
    }
  }

  lemma FirstName(s: seq<Dim>) returns (e: Dim)
    requires s != []
    ensures e in s
  {
    e := s[0];
  }

  lemma DropLast(s: seq<Dim>, e: Dim)
    requires NoDup(s) && s != []
    ensures e in s[..|s| - 1] <==> e in s && e != s[|s| - 1]
  {
  }

  /** Lists that no merge can keep in order are merged without an error. */
  lemma InconsistentOrdersAreMerged(a: Dim, b: Dim)
    requires a != b
    ensures !SameOrder([a, b], [b, a]) && forall r :: !IsSupersequence(r, [a, b], [b, a])
    ensures Merged([a, b], [b, a]) == [a, b]
  {
    var x, y := [a, b], [b, a];
    assert PlaceOf(y, a) == 1 && PlaceOf(x, b) == 1;
    MergeRound(x, y, 0, 0, [], 1, 1, 4);
    assert [] + [a] == [a] && [a] + [b] == x;
    MergeSkips(x, y, 1, 0, [a]);
    MergeSkips(x, y, 2, 1, x);
    MergeSkips(x, y, 2, 2, x);
    Crossing([a, b], [b, a], 0, 0, 1, 1);
    forall r
      ensures !IsSupersequence(r, [a, b], [b, a])
    {
      if IsSupersequence(r, [a, b], [b, a]) {
        SupersequenceNeedsSameOrder(r, [a, b], [b, a]);
      }
    }
  }

  // ---------------------------------------------------------------- products

  /** v, placed above the output bits of inner. */
  function Raised(v: set<Bit>, inner: Layout): set<Bit> {
    set b | b in v :: Bit(b.dim, b.pos + inner.OutSize(b.dim))
  }

  lemma InRaised(v: set<Bit>, inner: Layout, b: Bit)
    ensures b in Raised(v, inner) <==> inner.OutSize(b.dim) <= b.pos && Bit(b.dim, b.pos - inner.OutSize(b.dim)) in v
  {
  }

  /** x, placed above the input bits of inner. */
  function Lifted(x: set<Bit>, inner: Layout): set<Bit> {
    Moved(x, d => inner.InSize(d))
  }

  /** The part of an input above the input bits of inner. */
  function Above(x: set<Bit>, inner: Layout): set<Bit> {
    set c | c in x && inner.InSize(c.dim) <= c.pos :: Bit(c.dim, c.pos - inner.InSize(c.dim))
  }

  lemma InAbove(x: set<Bit>, inner: Layout, c: Bit)
    ensures c in Above(x, inner) <==> Bit(c.dim, c.pos + inner.InSize(c.dim)) in x
  {
  }

  function ProductBasis(inner: Layout, outer: Layout, c: Bit): set<Bit> {
    if inner.HasIn(c) then inner.Basis(c)
    else Raised(outer.Basis(Bit(c.dim, c.pos - inner.InSize(c.dim))), inner)
  }

  /** r is the block-diagonal layout, inner in the low bits and outer in the high bits, in any order of dimensions. */
  ghost predicate IsBlockProduct(r: Layout, inner: Layout, outer: Layout) {
    && (forall d :: d in r.bases <==> d in inner.bases || d in outer.bases)
    && (forall d :: d in r.outSizes <==> d in inner.outSizes || d in outer.outSizes)
    && (forall d :: r.InSize(d) == inner.InSize(d) + outer.InSize(d))
    && (forall d :: r.OutSize(d) == inner.OutSize(d) + outer.OutSize(d))
    && (forall c :: r.HasIn(c) ==> r.Basis(c) == ProductBasis(inner, outer, c))
  }

  ghost predicate IsProduct(r: Layout, inner: Layout, outer: Layout) {
    && r.Valid() && IsBlockProduct(r, inner, outer)
    && r.inDims == Merged(inner.inDims, outer.inDims) && r.outDims == Merged(inner.outDims, outer.outDims)
  }

  /** inner * outer. */
  method Product(inner: Layout, outer: Layout) returns (r: Layout)
    requires inner.Valid() && outer.Valid()
    ensures IsProduct(r, inner, outer)
    ensures IsMerge(r.inDims, inner.inDims, outer.inDims) && IsMerge(r.outDims, inner.outDims, outer.outDims)
    ensures IsSupersequence(r.inDims, inner.inDims, outer.inDims) <==> SameOrder(inner.inDims, outer.inDims)
    ensures IsSupersequence(r.outDims, inner.outDims, outer.outDims) <==> SameOrder(inner.outDims, outer.outDims)
  {
    hide SameOrder, IsSupersequence, ProductBasis, MergeFrom;
    var inDims := Supremum(inner.inDims, outer.inDims);
    var outDims := Supremum(inner.outDims, outer.outDims);
    var outSizes: map<Dim, nat> := map d | d in outDims :: inner.OutSize(d) + outer.OutSize(d);
    var allBases: map<Dim, seq<set<Bit>>> := map[];
    for k := 0 to |inDims|
      invariant forall d :: d in allBases <==> d in inDims[..k]
      invariant forall d :: d in allBases ==> IsProductBases(allBases[d], inner, outer, d)
    {
      var inDimBases := ProductBases(inner, outer, inDims[k]);
      allBases := allBases[inDims[k] := inDimBases];
    }
    r := Layout(inDims, allBases, outDims, outSizes);
    ProductIsValid(r, inner, outer);
  }

  ghost predicate IsProductBases(bs: seq<set<Bit>>, inner: Layout, outer: Layout, d: Dim) {
    && |bs| == inner.InSize(d) + outer.InSize(d)
    && forall i: nat :: i < |bs| ==> bs[i] == ProductBasis(inner, outer, Bit(d, i))
  }

  method ProductBases(inner: Layout, outer: Layout, d: Dim) returns (inDimBases: seq<set<Bit>>)
    ensures IsProductBases(inDimBases, inner, outer, d)
  {
    inDimBases := [];
    for i := 0 to inner.InSize(d)
      invariant |inDimBases| == i && forall j: nat :: j < i ==> inDimBases[j] == ProductBasis(inner, outer, Bit(d, j))
    {
      inDimBases := inDimBases + [inner.Basis(Bit(d, i))];
    }
    for i := 0 to outer.InSize(d)
      invariant |inDimBases| == inner.InSize(d) + i
      invariant forall j: nat :: j < |inDimBases| ==> inDimBases[j] == ProductBasis(inner, outer, Bit(d, j))
    {
      inDimBases := inDimBases + [Raised(outer.Basis(Bit(d, i)), inner)];
    }
  }

  lemma ProductIsValid(r: Layout, inner: Layout, outer: Layout)
    requires inner.Valid() && outer.Valid()
    requires IsMerge(r.inDims, inner.inDims, outer.inDims) && IsMerge(r.outDims, inner.outDims, outer.outDims)
    requires forall d :: d in r.bases <==> d in r.inDims
    requires forall d :: d in r.bases ==> IsProductBases(r.bases[d], inner, outer, d)
    requires r.outSizes == map d | d in r.outDims :: inner.OutSize(d) + outer.OutSize(d)
    ensures r.Valid() && IsBlockProduct(r, inner, outer)
  {
    hide ProductBasis;
    assert forall d :: r.OutSize(d) == inner.OutSize(d) + outer.OutSize(d);
    forall c | r.HasIn(c)
      ensures r.Basis(c) == ProductBasis(inner, outer, c)
    {
      assert r.bases[c.dim][c.pos] == ProductBasis(inner, outer, Bit(c.dim, c.pos));
    }
    forall c, b | r.HasIn(c) && b in r.Basis(c)
      ensures r.HasOut(b)
    {
      ProductBasisInRange(inner, outer, c, b);
    }
  }

  lemma ProductBasisInRange(inner: Layout, outer: Layout, c: Bit, b: Bit)
    requires inner.Valid() && outer.Valid() && c.pos < inner.InSize(c.dim) + outer.InSize(c.dim)
    requires b in ProductBasis(inner, outer, c)
    ensures b.pos < inner.OutSize(b.dim) + outer.OutSize(b.dim)
    ensures inner.HasOut(b) <==> inner.HasIn(c)
  {
    if !inner.HasIn(c) {
      var c' := Bit(c.dim, c.pos - inner.InSize(c.dim));
      InRaised(outer.Basis(c'), inner, b);
      assert outer.HasOut(Bit(b.dim, b.pos - inner.OutSize(b.dim)));
    } else {
      assert inner.HasOut(b);
    }
  }

  /** A product acts on the low bits as inner and on the high bits as outer. */
  lemma ProductImage(r: Layout, inner: Layout, outer: Layout, x: set<Bit>)
    requires r.Valid() && inner.Valid() && outer.Valid() && IsBlockProduct(r, inner, outer)
    ensures r.Image(x) == inner.Image(x) + Raised(outer.Image(Above(x, inner)), inner)
  {
    hide Layout.Valid, Layout.Reaching, ProductBasis, Raised, Above;
    forall b
      ensures b in r.Image(x) <==> b in inner.Image(x) || b in Raised(outer.Image(Above(x, inner)), inner)
    {
      InRaised(outer.Image(Above(x, inner)), inner, b);
      if inner.HasOut(b) {
        LowReaching(r, inner, outer, b);
      } else {
        HighReaching(r, inner, outer, b, x);
      }
    }
  }

  lemma LowReaching(r: Layout, inner: Layout, outer: Layout, b: Bit)
    requires r.Valid() && inner.Valid() && outer.Valid() && IsBlockProduct(r, inner, outer) && inner.HasOut(b)
    ensures r.Reaching(b) == inner.Reaching(b)
  {
  }

  lemma HighReaching(r: Layout, inner: Layout, outer: Layout, b: Bit, x: set<Bit>)
    requires r.Valid() && inner.Valid() && outer.Valid() && IsBlockProduct(r, inner, outer)
    requires inner.OutSize(b.dim) <= b.pos
    ensures var b' := Bit(b.dim, b.pos - inner.OutSize(b.dim));
      Dot(x, r.Reaching(b)) <==> Dot(Above(x, inner), outer.Reaching(b'))
  {
    hide Layout.Valid, Layout.Reaching, Above, Lifted;
    var b' := Bit(b.dim, b.pos - inner.OutSize(b.dim));
    var high, low := x * r.Reaching(b), Above(x, inner) * outer.Reaching(b');
    forall c
      ensures c in high <==> c in Lifted(low, inner)
    {
      InLifted(low, inner, c);
      if c in r.Reaching(b) {
        ProductBasisInRange(inner, outer, c, b) by { assert r.Basis(c) == ProductBasis(inner, outer, c); }
      }
      if inner.InSize(c.dim) <= c.pos {
        var c' := Bit(c.dim, c.pos - inner.InSize(c.dim));
        InAbove(x, inner, c');
        HighBasis(r, inner, outer, c, b);
      }
    }
    assert high == Lifted(low, inner);
    LiftedSize(low, inner);
  }

  lemma InLifted(x: set<Bit>, inner: Layout, c: Bit)
    ensures c in Lifted(x, inner) <==> inner.InSize(c.dim) <= c.pos && Bit(c.dim, c.pos - inner.InSize(c.dim)) in x
  {
  }

  lemma LiftedSize(x: set<Bit>, inner: Layout)
    ensures |Lifted(x, inner)| == |x|
  {
    MovedSize(x, d => inner.InSize(d));
  }

  lemma HighBasis(r: Layout, inner: Layout, outer: Layout, c: Bit, b: Bit)
    requires IsBlockProduct(r, inner, outer) && inner.InSize(c.dim) <= c.pos && inner.OutSize(b.dim) <= b.pos
    ensures var c', b' := Bit(c.dim, c.pos - inner.InSize(c.dim)), Bit(b.dim, b.pos - inner.OutSize(b.dim));
      c in r.Reaching(b) <==> c' in outer.Reaching(b')
  {
  }

  function Moved(x: set<Bit>, offset: Dim -> nat): set<Bit> {
    set c | c in x :: Bit(c.dim, c.pos + offset(c.dim))
  }

  /** Moving bits up within their dimensions keeps their number. */
  lemma {:induction false} MovedSize(x: set<Bit>, offset: Dim -> nat)
    ensures |Moved(x, offset)| == |x|
    decreases x
  {
    if x == {} {
      assert Moved(x, offset) == {};
    } else {
      var c :| c in x;
      MovedSize(x - {c}, offset);
      MovedWithout(x, offset, c);
    }
  }

  lemma MovedWithout(x: set<Bit>, offset: Dim -> nat, c: Bit)
    requires c in x
    ensures var c' := Bit(c.dim, c.pos + offset(c.dim));
      c' !in Moved(x - {c}, offset) && Moved(x, offset) == Moved(x - {c}, offset) + {c'}
  {
  }

  // ---------------------------------------------------------------- associativity

  lemma RaisedTwice(v: set<Bit>, inner: Layout, middle: Layout, both: Layout)
    requires forall d :: both.OutSize(d) == inner.OutSize(d) + middle.OutSize(d)
    ensures Raised(Raised(v, middle), inner) == Raised(v, both)
  {
    hide Raised;
    forall b
      ensures b in Raised(Raised(v, middle), inner) <==> b in Raised(v, both)
    {
      InRaised(Raised(v, middle), inner, b);
      InRaised(v, both, b);
      if inner.OutSize(b.dim) <= b.pos {
        InRaised(v, middle, Bit(b.dim, b.pos - inner.OutSize(b.dim)));
      }
    }
  }

  lemma SameBasisEitherWay(A: Layout, B: Layout, C: Layout, AB: Layout, BC: Layout, P: Layout, Q: Layout, c: Bit)
    requires IsBlockProduct(AB, A, B) && IsBlockProduct(P, AB, C)
    requires IsBlockProduct(BC, B, C) && IsBlockProduct(Q, A, BC) && P.HasIn(c) && Q.HasIn(c)
    ensures P.Basis(c) == Q.Basis(c)
  {
    hide Raised, Layout.Basis;
    assert AB.InSize(c.dim) == A.InSize(c.dim) + B.InSize(c.dim);
    assert P.Basis(c) == ProductBasis(AB, C, c) && Q.Basis(c) == ProductBasis(A, BC, c);
    if AB.HasIn(c) {
      assert AB.Basis(c) == ProductBasis(A, B, c);
    }
    if !A.HasIn(c) {
      var c' := Bit(c.dim, c.pos - A.InSize(c.dim));
      assert Q.InSize(c.dim) == A.InSize(c.dim) + BC.InSize(c.dim);
      assert BC.Basis(c') == ProductBasis(B, C, c');
      if !B.HasIn(c') {
        RaisedTwice(C.Basis(Bit(c.dim, c'.pos - B.InSize(c.dim))), A, B, AB);
      }
    }
  }

  /** The names of three lists come in one order however they are bracketed. */
  predicate MergeAssociates(x: seq<Dim>, y: seq<Dim>, z: seq<Dim>) {
    Merged(Merged(x, y), z) == Merged(x, Merged(y, z))
  }

  /** (A * B) * C and A * (B * C) have the same sizes and basis vectors; they are equal exactly when the lists agree. */
  lemma ProductAssociates(A: Layout, B: Layout, C: Layout, AB: Layout, BC: Layout, P: Layout, Q: Layout)
    requires IsProduct(AB, A, B) && IsProduct(P, AB, C) && IsProduct(BC, B, C) && IsProduct(Q, A, BC)
    ensures forall d :: P.InSize(d) == Q.InSize(d) && P.OutSize(d) == Q.OutSize(d)
    ensures forall c :: P.HasIn(c) ==> P.Basis(c) == Q.Basis(c)
    ensures P == Q <==>
      MergeAssociates(A.inDims, B.inDims, C.inDims) && MergeAssociates(A.outDims, B.outDims, C.outDims)
  {
    hide ProductBasis, Layout.Basis, Merged, Raised, Layout.Valid;
    forall d
      ensures P.InSize(d) == Q.InSize(d) && P.OutSize(d) == Q.OutSize(d)
    {
      assert AB.InSize(d) == A.InSize(d) + B.InSize(d) && AB.OutSize(d) == A.OutSize(d) + B.OutSize(d);
      assert BC.InSize(d) == B.InSize(d) + C.InSize(d) && BC.OutSize(d) == B.OutSize(d) + C.OutSize(d);
    }
    forall c | P.HasIn(c)
      ensures P.Basis(c) == Q.Basis(c)
    {
      assert P.InSize(c.dim) == Q.InSize(c.dim);
      SameBasisEitherWay(A, B, C, AB, BC, P, Q, c);
    }
    if P.inDims == Q.inDims && P.outDims == Q.outDims {
      assert P.bases.Keys == Q.bases.Keys && P.outSizes.Keys == Q.outSizes.Keys;
      SameLayout(P, Q);
    }
  }

  lemma TakesLeft(x: seq<Dim>, y: seq<Dim>, i: nat, j: nat, result: seq<Dim>)
    requires i < |x| && j <= |y| && x[i] !in result && (j < |y| ==> y[j] !in result)
    requires x[i] !in y
    ensures MergeFrom(x, y, i, j, result) == MergeFrom(x, y, i + 1, j, result + [x[i]])
  {
  }

  lemma TakesRight(x: seq<Dim>, y: seq<Dim>, i: nat, j: nat, result: seq<Dim>)
    requires i <= |x| && j < |y| && (i < |x| ==> x[i] !in result) && y[j] !in result
    requires y[j] !in x && (i < |x| ==> x[i] in y)
    ensures MergeFrom(x, y, i, j, result) == MergeFrom(x, y, i, j + 1, result + [y[j]])
  {
  }

  /** Three lists in compatible orders whose merge depends on the bracketing. */
  lemma OrderIsNotAssociative(a: Dim, b: Dim, c: Dim, d: Dim)
    requires NoDup([a, b, c, d])
    ensures var x, y, z := [a, d], [b], [c, d];
      && SameOrder(x, y) && SameOrder(y, z) && SameOrder(x, z)
      && SameOrder(Merged(x, y), z) && SameOrder(x, Merged(y, z))
      && Merged(Merged(x, y), z) == [a, c, d, b]
      && Merged(x, Merged(y, z)) == [a, b, c, d]
  {
    var all := [a, b, c, d];
    assert all[0] == a && all[1] == b && all[2] == c && all[3] == d;
    FirstMerges(a, b, c, d);
    LeftMerge(a, b, c, d);
    RightMerge(a, b, c, d);
    hide MergeFrom;
  }

  lemma FirstMerges(a: Dim, b: Dim, c: Dim, d: Dim)
    requires a != b && a != d && b != c && b != d && c != d
    ensures Merged([a, d], [b]) == [a, d, b] && Merged([b], [c, d]) == [b, c, d]
  {
    hide MergeFrom;
    TakesLeft([a, d], [b], 0, 0, []);
    TakesLeft([a, d], [b], 1, 0, [a]);
    TakesRight([a, d], [b], 2, 0, [a, d]);
    MergeSkips([a, d], [b], 2, 1, [a, d, b]);
    TakesLeft([b], [c, d], 0, 0, []);
    TakesRight([b], [c, d], 1, 0, [b]);
    TakesRight([b], [c, d], 1, 1, [b, c]);
    MergeSkips([b], [c, d], 1, 2, [b, c, d]);
    assert [] + [a] == [a] && [a] + [d] == [a, d] && [a, d] + [b] == [a, d, b];
    assert [] + [b] == [b] && [b] + [c] == [b, c] && [b, c] + [d] == [b, c, d];
  }

  lemma LeftMerge(a: Dim, b: Dim, c: Dim, d: Dim)
    requires a != b && a != c && a != d && b != c && b != d && c != d
    ensures Merged([a, d, b], [c, d]) == [a, c, d, b]
  {
    hide MergeFrom;
    var x, y := [a, d, b], [c, d];
    TakesLeft(x, y, 0, 0, []);
    TakesRight(x, y, 1, 0, [a]);
    MergeSkips(x, y, 1, 1, [a, c]);
    TakesLeft(x, y, 2, 2, [a, c, d]);
    MergeSkips(x, y, 3, 2, [a, c, d, b]);
    assert [] + [a] == [a] && [a] + [c] == [a, c] && [a, c] + [d] == [a, c, d] && [a, c, d] + [b] == [a, c, d, b];
  }

  lemma RightMerge(a: Dim, b: Dim, c: Dim, d: Dim)
    requires a != b && a != c && a != d && b != c && b != d && c != d
    ensures Merged([a, d], [b, c, d]) == [a, b, c, d]
  {
    hide MergeFrom;
    var x, y := [a, d], [b, c, d];
    TakesLeft(x, y, 0, 0, []);
    TakesRight(x, y, 1, 0, [a]);
    TakesRight(x, y, 1, 1, [a, b]);
    MergeSkips(x, y, 1, 2, [a, b, c]);
    MergeSkips(x, y, 2, 3, [a, b, c, d]);
    assert [] + [a] == [a] && [a] + [b] == [a, b] && [a, b] + [c] == [a, b, c] && [a, b, c] + [d] == [a, b, c, d];
  }

  // ---------------------------------------------------------------- surjective products

  lemma PreimageInProduct(r: Layout, inner: Layout, outer: Layout, y: set<Bit>) returns (z: set<Bit>)
    requires r.Valid() && inner.Valid() && outer.Valid() && IsBlockProduct(r, inner, outer)
    requires Surjective(inner) && Surjective(outer) && y <= r.OutBits()
    ensures r.Image(z) == y
  {
    hide Layout.Image, Layout.Valid, Layout.Reaching;
    hide Lowered, Raised, Lifted;
    var low, high := y * inner.OutBits(), Lowered(y, inner);
    SplitOutput(r, inner, outer, y);
    var x0 :| inner.Image(x0) == low;
    var x1 :| outer.Image(x1) == high;
    z := (x0 * inner.InBits()) + Lifted(x1, inner);
    SplitCombined(x0, x1, z, inner);
    ImageAgree(inner, x0, z);
    ProductImage(r, inner, outer, z);
  }

  lemma SplitOutput(r: Layout, inner: Layout, outer: Layout, y: set<Bit>)
    requires IsBlockProduct(r, inner, outer) && y <= r.OutBits()
    ensures y == y * inner.OutBits() + Raised(Lowered(y, inner), inner)
    ensures y * inner.OutBits() <= inner.OutBits() && Lowered(y, inner) <= outer.OutBits()
  {
    hide Lowered, Raised;
    var high := Lowered(y, inner);
    forall b
      ensures b in y <==> b in y * inner.OutBits() + Raised(high, inner)
    {
      InRaised(high, inner, b);
      if inner.OutSize(b.dim) <= b.pos {
        InLowered(y, inner, Bit(b.dim, b.pos - inner.OutSize(b.dim)));
      }
    }
    forall b | b in high
      ensures outer.HasOut(b)
    {
      InLowered(y, inner, b);
      assert r.HasOut(Bit(b.dim, b.pos + inner.OutSize(b.dim)));
    }
  }

  /** The part of an output above the output bits of inner. */
  function Lowered(y: set<Bit>, inner: Layout): set<Bit> {
    set b | b in y && inner.OutSize(b.dim) <= b.pos :: Bit(b.dim, b.pos - inner.OutSize(b.dim))
  }

  lemma InLowered(y: set<Bit>, inner: Layout, b: Bit)
    ensures b in Lowered(y, inner) <==> Bit(b.dim, b.pos + inner.OutSize(b.dim)) in y
  {
  }

  lemma SplitCombined(x0: set<Bit>, x1: set<Bit>, z: set<Bit>, inner: Layout)
    requires z == (x0 * inner.InBits()) + Lifted(x1, inner)
    ensures Above(z, inner) == x1
    ensures forall c :: inner.HasIn(c) ==> (c in x0 <==> c in z)
  {
  }

  lemma PreimageOfLow(r: Layout, inner: Layout, outer: Layout, y: set<Bit>) returns (x: set<Bit>)
    requires r.Valid() && inner.Valid() && outer.Valid() && IsBlockProduct(r, inner, outer)
    requires Surjective(r) && y <= inner.OutBits()
    ensures inner.Image(x) == y
  {
    hide Layout.Image, Layout.Valid, Layout.Reaching, Raised, Above;
    assert y <= r.OutBits();
    x :| r.Image(x) == y;
    ProductImage(r, inner, outer, x);
    forall b | b in y
      ensures b in inner.Image(x)
    {
      InRaised(outer.Image(Above(x, inner)), inner, b);
    }
  }

  lemma PreimageOfHigh(r: Layout, inner: Layout, outer: Layout, y: set<Bit>) returns (x: set<Bit>)
    requires r.Valid() && inner.Valid() && outer.Valid() && IsBlockProduct(r, inner, outer)
    requires Surjective(r) && y <= outer.OutBits()
    ensures outer.Image(x) == y
  {
    hide Layout.Image, Layout.Valid, Layout.Reaching, Raised, Above;
    RaisedInRange(r, inner, outer, y);
    var z :| r.Image(z) == Raised(y, inner);
    ProductImage(r, inner, outer, z);
    x := Above(z, inner);
    SameRaised(inner.Image(z), outer.Image(x), y, inner);
  }

  lemma RaisedInRange(r: Layout, inner: Layout, outer: Layout, y: set<Bit>)
    requires IsBlockProduct(r, inner, outer) && y <= outer.OutBits()
    ensures Raised(y, inner) <= r.OutBits()
  {
  }

  lemma SameRaised(low: set<Bit>, u: set<Bit>, v: set<Bit>, inner: Layout)
    requires low + Raised(u, inner) == Raised(v, inner) && forall b :: b in low ==> inner.HasOut(b)
    ensures u == v
  {
    hide Raised;
    forall b
      ensures b in u <==> b in v
    {
      var b' := Bit(b.dim, b.pos + inner.OutSize(b.dim));
      InRaised(u, inner, b');
      InRaised(v, inner, b');
    }
  }

  /** The surjectivity the constructor demands of a product of surjective layouts always holds. */
  lemma ProductSurjective(r: Layout, inner: Layout, outer: Layout)
    requires r.Valid() && inner.Valid() && outer.Valid() && IsBlockProduct(r, inner, outer)
    ensures Surjective(r) <==> Surjective(inner) && Surjective(outer)
  {
    hide Layout.Image, Layout.Valid, Layout.Reaching;
    if Surjective(inner) && Surjective(outer) {
      forall y | y <= r.OutBits()
        ensures exists x :: r.Image(x) == y
      {
        var z := PreimageInProduct(r, inner, outer, y);
      }
    }
    if Surjective(r) {
      forall y | y <= inner.OutBits()
        ensures exists x :: inner.Image(x) == y
      {
        var x := PreimageOfLow(r, inner, outer, y);
      }
      forall y | y <= outer.OutBits()
        ensures exists x :: outer.Image(x) == y
      {
        var x := PreimageOfHigh(r, inner, outer, y);
      }
    }
  }
}
