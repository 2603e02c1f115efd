/** Reduction of a bit matrix, held as its rows, to reduced row echelon form. */
module RowReduction {
  import opened GF2

  // ---------------------------------------------------------------- row equivalence

  /** The same row space, and one list is independent exactly when the other is. */
  ghost predicate RowEquivalent(a: seq<set<nat>>, b: seq<set<nat>>) {
    && |a| == |b|
    && (forall v :: InSpan(v, a) <==> InSpan(v, b))
    && (Independent(a) <==> Independent(b))
  }

  /** The selection of rows of `rows` that a selection x of the rows after adding row i to row j amounts to. */
  function Rerouted(x: set<nat>, i: nat, j: nat): set<nat> {
    if j in x then Xor(x, {i}) else x
  }

  lemma AddedCombo(rows: seq<set<nat>>, i: nat, j: nat, x: set<nat>)
    requires i < |rows| && j < |rows| && i != j
    ensures Combo(rows[j := Xor(rows[j], rows[i])], x) == Combo(rows, Rerouted(x, i, j))
  {
    ComboUpdate(rows, j, Xor(rows[j], rows[i]), x);
    ComboXor(rows, x, {i});
    ComboUnit(rows, i);
    assert Xor(rows[j], Xor(rows[j], rows[i])) == rows[i];
  }

  lemma ReroutedTwice(x: set<nat>, i: nat, j: nat, n: nat)
    requires i < n && j < n && i != j
    ensures Rerouted(Rerouted(x, i, j), i, j) == x
    ensures Below(x, n) ==> Below(Rerouted(x, i, j), n)
    ensures Rerouted(x, i, j) == {} ==> x == {}
  {
  }

  lemma AddRow(rows: seq<set<nat>>, i: nat, j: nat)
    requires i < |rows| && j < |rows| && i != j
    ensures RowEquivalent(rows, rows[j := Xor(rows[j], rows[i])])
  {
    hide Xor, Combo, Rerouted;
    var rows' := rows[j := Xor(rows[j], rows[i])];
    forall x
      ensures Combo(rows', x) == Combo(rows, Rerouted(x, i, j))
      ensures Combo(rows, x) == Combo(rows', Rerouted(x, i, j))
    {
      AddedCombo(rows, i, j, x);
      AddedCombo(rows, i, j, Rerouted(x, i, j));
      ReroutedTwice(x, i, j, |rows|);
    }
    forall x
      ensures Below(x, |rows|) ==> Below(Rerouted(x, i, j), |rows|)
      ensures Rerouted(x, i, j) == {} ==> x == {}
    {
      ReroutedTwice(x, i, j, |rows|);
    }
  }

  lemma SwapRows(rows: seq<set<nat>>, i: nat, j: nat)
    requires i < |rows| && j < |rows|
    ensures RowEquivalent(rows, rows[i := rows[j]][j := rows[i]])
  {
    if i == j {
      assert rows[i := rows[j]][j := rows[i]] == rows;
    } else {
      var a := rows[j := Xor(rows[j], rows[i])];
      var b := a[i := Xor(a[i], a[j])];
      var c := b[j := Xor(b[j], b[i])];
      AddRow(rows, i, j);
      AddRow(a, j, i);
      AddRow(b, i, j);
      assert b[i] == rows[j] && c[j] == rows[i];
      assert c == rows[i := rows[j]][j := rows[i]];
    }
  }

  /** Row-equivalent matrices have the same solutions. */
  lemma SameAnnihilator(a: seq<set<nat>>, b: seq<set<nat>>, w: set<nat>)
    requires RowEquivalent(a, b)
    ensures Annihilates(w, a) <==> Annihilates(w, b)
  {
    if Annihilates(w, a) {
      forall k | 0 <= k < |b|
        ensures !Dot(w, b[k])
      {
        SpanContains(b, k);
        var x :| Combo(a, x) == b[k];
        AnnihilatesSpan(w, a, x);
      }
    }
    if Annihilates(w, b) {
      forall k | 0 <= k < |a|
        ensures !Dot(w, a[k])
      {
        SpanContains(a, k);
        var x :| Combo(b, x) == a[k];
        AnnihilatesSpan(w, b, x);
      }
    }
  }

  // ---------------------------------------------------------------- reduced row echelon form

  /** p is the lowest set bit of the row. */
  ghost predicate IsPivot(p: nat, row: set<nat>) {
    p in row && forall b :: b in row ==> p <= b
  }

  /** The pivot of each non-zero row occurs in no other row. */
  ghost predicate Reduced(rows: seq<set<nat>>) {
    forall i, j, p :: 0 <= i < |rows| && 0 <= j < |rows| && i != j && IsPivot(p, rows[i]) ==> p !in rows[j]
  }

  /** The pivots of the first k rows increase from row to row. */
  ghost predicate PivotsIncrease(rows: seq<set<nat>>, k: nat)
    requires k <= |rows|
  {
    forall i, j, p, q :: 0 <= i < j < k && IsPivot(p, rows[i]) && IsPivot(q, rows[j]) ==> p < q
  }

  /** Row echelon form: the zero rows come last, and the pivots of the others increase. */
  ghost predicate Echelon(rows: seq<set<nat>>) {
    && PivotsIncrease(rows, |rows|)
    && forall i, j :: 0 <= i < j < |rows| && rows[i] == {} ==> rows[j] == {}
  }

  function LowestFrom(row: set<nat>, k: nat, n: nat): (p: nat)
    requires k <= n && Below(row, n) && row != {} && forall b :: b in row ==> k <= b
    ensures IsPivot(p, row)
    decreases n - k
  {
    if k in row then k
    else
      assert exists b :: b in row && k <= b < n;
      LowestFrom(row, k + 1, n)
  }

  /** The position of the lowest set bit. */
  function LowestBit(row: set<nat>, n: nat): (p: nat)
    requires Below(row, n) && row != {}
    ensures IsPivot(p, row)
  {
    LowestFrom(row, 0, n)
  }

  /** The state of the reduction after the columns below c: k pivot rows, the rest zero in those columns. */
  ghost predicate ReducedUpTo(rows: seq<set<nat>>, k: nat, c: nat) {
    && k <= |rows|
    && (forall i :: 0 <= i < k ==> HasPivot(rows, i, c))
    && PivotsIncrease(rows, k)
    && forall i, b :: k <= i < |rows| && b in rows[i] ==> c <= b
  }

  ghost predicate PivotColumn(rows: seq<set<nat>>, i: nat, p: nat)
    requires i < |rows|
  {
    IsPivot(p, rows[i]) && forall j :: 0 <= j < |rows| && j != i ==> p !in rows[j]
  }

  ghost predicate HasPivot(rows: seq<set<nat>>, i: nat, c: nat)
    requires i < |rows|
  {
    exists p: nat :: p < c && PivotColumn(rows, i, p)
  }

  /** Gauss-Jordan elimination in place. */
  method InplaceRref(m: array<set<nat>>, numCols: nat)
    requires AllBelow(m[..], numCols)
    modifies m
    ensures AllBelow(m[..], numCols) && Reduced(m[..]) && Echelon(m[..]) && RowEquivalent(old(m[..]), m[..])
  {
    var k := 0;
    for c := 0 to numCols
      invariant AllBelow(m[..], numCols) && ReducedUpTo(m[..], k, c) && RowEquivalent(old(m[..]), m[..])
    {
      var p := k;
      while p < m.Length && c !in m[p]
        invariant k <= p <= m.Length && forall i :: k <= i < p ==> c !in m[i]
      {
        p := p + 1;
      }
      if p < m.Length {
        ghost var before := m[..];
        m[k], m[p] := m[p], m[k];
        assert m[..] == before[k := before[p]][p := before[k]];
        SwapRows(before, k, p);
        SwapKeepsReduced(before, k, c, p);
        Eliminate(m, k, c, numCols);
        k := k + 1;
      } else {
        NoPivot(m[..], k, c);
      }
    }
    ReducedAtEnd(m[..], k, numCols);
  }

  lemma SwapKeepsReduced(rows: seq<set<nat>>, k: nat, c: nat, p: nat)
    requires ReducedUpTo(rows, k, c) && k <= p < |rows|
    ensures ReducedUpTo(rows[k := rows[p]][p := rows[k]], k, c)
  {
    var rows' := rows[k := rows[p]][p := rows[k]];
    forall i | 0 <= i < k
      ensures HasPivot(rows', i, c)
    {
      assert HasPivot(rows, i, c);
      var q: nat :| q < c && PivotColumn(rows, i, q);
      assert PivotColumn(rows', i, q);
    }
  }

  /** Clears column c in every row but row k. */
  method Eliminate(m: array<set<nat>>, k: nat, c: nat, numCols: nat)
    requires k < m.Length && c < numCols && c in m[k]
    requires AllBelow(m[..], numCols) && ReducedUpTo(m[..], k, c)
    modifies m
    ensures AllBelow(m[..], numCols) && ReducedUpTo(m[..], k + 1, c + 1) && RowEquivalent(old(m[..]), m[..])
  {
    for r := 0 to m.Length
      invariant c in m[k] && AllBelow(m[..], numCols) && ReducedUpTo(m[..], k, c)
      invariant RowEquivalent(old(m[..]), m[..])
      invariant forall i :: 0 <= i < r && i != k ==> c !in m[i]
    {
      if r != k && c in m[r] {
        ghost var before := m[..];
        AddRow(before, k, r);
        AddKeepsReduced(before, k, c, r);
        m[r] := Xor(m[r], m[k]);
        assert m[..] == before[r := Xor(before[r], before[k])];
      }
    }
    NewPivot(m[..], k, c);
  }

  lemma AddKeepsReduced(rows: seq<set<nat>>, k: nat, c: nat, r: nat)
    requires ReducedUpTo(rows, k, c) && k < |rows| && r < |rows| && r != k
    ensures ReducedUpTo(rows[r := Xor(rows[r], rows[k])], k, c)
  {
    var rows' := rows[r := Xor(rows[r], rows[k])];
    forall i | 0 <= i < k
      ensures HasPivot(rows', i, c)
    {
      assert HasPivot(rows, i, c);
      var q: nat :| q < c && PivotColumn(rows, i, q);
      assert PivotColumn(rows', i, q);
    }
    forall i: nat, p: nat | i < k && IsPivot(p, rows'[i])
      ensures IsPivot(p, rows[i])
    {
      assert HasPivot(rows, i, c);
      var q: nat :| q < c && PivotColumn(rows, i, q);
      assert PivotColumn(rows', i, q);
      assert p == q;
    }
  }

  lemma NewPivot(rows: seq<set<nat>>, k: nat, c: nat)
    requires ReducedUpTo(rows, k, c) && k < |rows| && c in rows[k]
    requires forall i :: 0 <= i < |rows| && i != k ==> c !in rows[i]
    ensures ReducedUpTo(rows, k + 1, c + 1)
  {
    var c': nat := c + 1;
    forall i | 0 <= i < k + 1
      ensures HasPivot(rows, i, c')
    {
      if i < k {
        assert HasPivot(rows, i, c);
      } else {
        assert PivotColumn(rows, k, c);
      }
    }
    forall i: nat, p: nat | i <= k && IsPivot(p, rows[i])
      ensures if i == k then p == c else p < c
    {
      if i < k {
        assert HasPivot(rows, i, c);
        var q: nat :| q < c && PivotColumn(rows, i, q);
        assert p == q;
      }
    }
  }

  lemma NoPivot(rows: seq<set<nat>>, k: nat, c: nat)
    requires ReducedUpTo(rows, k, c)
    requires forall i :: k <= i < |rows| ==> c !in rows[i]
    ensures ReducedUpTo(rows, k, c + 1)
  {
    var c': nat := c + 1;
    forall i | 0 <= i < k
      ensures HasPivot(rows, i, c')
    {
      assert HasPivot(rows, i, c);
    }
  }

  lemma ReducedAtEnd(rows: seq<set<nat>>, k: nat, n: nat)
    requires ReducedUpTo(rows, k, n) && AllBelow(rows, n)
    ensures Reduced(rows) && Echelon(rows)
  {
    forall i | 0 <= i < |rows|
      ensures rows[i] == {} <==> k <= i
    {
      if i < k {
        assert HasPivot(rows, i, n);
      } else {
        assert Below(rows[i], n);
      }
    }
    forall i, j, p | 0 <= i < |rows| && 0 <= j < |rows| && i != j && IsPivot(p, rows[i])
      ensures p !in rows[j]
    {
      if i < k {
        assert HasPivot(rows, i, n);
        var q: nat :| q < n && PivotColumn(rows, i, q);
        assert q == p;
      }
    }
  }
}
