/** Free variables, least-squares solutions and null spaces, read off a reduced matrix. */
module LinearSolve {
  import opened Basics
  import opened GF2
  import opened RowReduction

  // ---------------------------------------------------------------- rows and columns

  /** The matrix whose columns are given, as its rows. */
  function RowsOf(cols: seq<set<nat>>, numRows: nat): (rows: seq<set<nat>>)
    ensures |rows| == numRows && forall t :: 0 <= t < numRows ==> rows[t] == Row(cols, t)
  {
    seq(numRows, t requires 0 <= t < numRows => Row(cols, t))
  }

  lemma {:induction false} ComboBelow(cols: seq<set<nat>>, x: set<nat>, n: nat)
    requires AllBelow(cols, n)
    ensures Below(Combo(cols, x), n)
  {
    if cols != [] {
      ComboBelow(cols[..|cols| - 1], x, n);
      assert Below(cols[|cols| - 1], n);
    }
  }

  /** x solves the homogeneous system exactly when the combination it selects is zero. */
  lemma KernelIsZeroCombo(cols: seq<set<nat>>, numRows: nat, x: set<nat>)
    requires AllBelow(cols, numRows)
    ensures Annihilates(x, RowsOf(cols, numRows)) <==> Combo(cols, x) == {}
  {
    var rows := RowsOf(cols, numRows);
    ComboBelow(cols, x, numRows);
    forall t: nat | t < numRows
      ensures Dot(x, rows[t]) <==> t in Combo(cols, x)
    {
      ComboBit(cols, x, t);
      DotCommutes(x, rows[t]);
    }
  }

  ghost predicate IsPivotColumn(rows: seq<set<nat>>, c: nat) {
    exists r :: 0 <= r < |rows| && IsPivot(c, rows[r])
  }

  lemma PivotOfRow(rows: seq<set<nat>>, r: nat, b: nat)
    requires Reduced(rows) && IsPivotColumn(rows, b) && r < |rows| && b in rows[r]
    ensures IsPivot(b, rows[r])
  {
  }

  /** v holds column c and the pivots of the rows that have column c. */
  ghost predicate IsKernelVector(v: set<nat>, rows: seq<set<nat>>, c: nat) {
    c in v && forall b :: b != c ==> (b in v <==> PairsWith(rows, b, c))
  }

  ghost predicate PairsWith(rows: seq<set<nat>>, b: nat, c: nat) {
    exists r :: 0 <= r < |rows| && IsPivot(b, rows[r]) && c in rows[r]
  }

  lemma KernelVectorBit(rows: seq<set<nat>>, c: nat, v: set<nat>, r: nat, b: nat)
    requires Reduced(rows) && IsKernelVector(v, rows, c) && r < |rows|
    requires b in v && b in rows[r] && b != c
    ensures IsPivot(b, rows[r]) && c in rows[r]
  {
  }

  lemma KernelVectorRow(rows: seq<set<nat>>, c: nat, v: set<nat>, r: nat)
    requires Reduced(rows) && !IsPivotColumn(rows, c) && IsKernelVector(v, rows, c) && r < |rows|
    ensures !Dot(v, rows[r])
  {
    hide Reduced, Dot;
    var row := rows[r];
    forall b | b in v && b in row && b != c
      ensures IsPivot(b, row) && c in row
    {
      KernelVectorBit(rows, c, v, r, b);
    }
    if c in row {
      var p := LowestIn(row);
      assert PairsWith(rows, p, c) && p != c;
      PairDot(v, row, c, p);
    } else {
      EmptyDot(v, row);
    }
  }

  lemma EmptyDot(a: set<nat>, b: set<nat>)
    requires forall k :: k in a ==> k !in b
    ensures !Dot(a, b)
  {
  }

  lemma PairDot(a: set<nat>, b: set<nat>, c: nat, p: nat)
    requires c != p && c in a && c in b && p in a && p in b && forall k :: k in a && k in b ==> k == c || k == p
    ensures !Dot(a, b)
  {
    assert a * b == {c, p};
  }

  lemma KernelVectorAnnihilates(rows: seq<set<nat>>, c: nat, v: set<nat>)
    requires Reduced(rows) && !IsPivotColumn(rows, c) && IsKernelVector(v, rows, c)
    ensures Annihilates(v, rows)
    ensures forall b :: b in v ==> b <= c
  {
    forall r | 0 <= r < |rows|
      ensures !Dot(v, rows[r])
    {
      KernelVectorRow(rows, c, v, r);
    }
  }

  lemma LowestIn(row: set<nat>) returns (p: nat)
    requires row != {}
    ensures IsPivot(p, row)
    decreases row
  {
    p :| p in row;
    if row != {p} {
      assert forall b :: b in row ==> b == p || b in row - {p};
      var q := LowestIn(row - {p});
      if q < p {
        p := q;
      }
    }
  }

  lemma SingletonDot(a: set<nat>, b: set<nat>, c: nat)
    requires c in a && c in b && forall k :: k in a && k in b ==> k == c
    ensures Dot(a, b)
  {
    assert a * b == {c};
  }

  /** A solution with no free variable is zero. */
  lemma PivotOnlySolutionIsZero(rows: seq<set<nat>>, y: set<nat>)
    requires Reduced(rows) && Annihilates(y, rows) && forall b :: b in y ==> IsPivotColumn(rows, b)
    ensures y == {}
  {
    if b :| b in y {
      var r :| 0 <= r < |rows| && IsPivot(b, rows[r]);
      forall k | k in y && k in rows[r]
        ensures k == b
      {
        PivotOfRow(rows, r, k);
      }
      SingletonDot(y, rows[r], b);
    }
  }

  /** A column is a pivot exactly when it is not a combination of the columns before it. */
  lemma PivotIsNewDirection(cols: seq<set<nat>>, numRows: nat, rows: seq<set<nat>>, c: nat)
    requires AllBelow(cols, numRows) && c < |cols|
    requires Reduced(rows) && AllBelow(rows, |cols|) && RowEquivalent(RowsOf(cols, numRows), rows)
    ensures IsPivotColumn(rows, c) <==> !InSpan(cols[c], cols[..c])
  {
    if IsPivotColumn(rows, c) {
      var r :| 0 <= r < |rows| && IsPivot(c, rows[r]);
      forall x
        ensures Combo(cols[..c], x) != cols[c]
      {
        var y := (set b | b in x && b < c) + {c};
        SolutionThrough(cols, c, x, y);
        KernelIsZeroCombo(cols, numRows, y);
        SameAnnihilator(RowsOf(cols, numRows), rows, y);
        SingletonDot(y, rows[r], c);
      }
    } else {
      var v := KernelVectorExists(rows, c, |cols|);
      KernelVectorAnnihilates(rows, c, v);
      SameAnnihilator(RowsOf(cols, numRows), rows, v);
      KernelIsZeroCombo(cols, numRows, v);
      SolutionThrough(cols, c, v, v);
    }
  }

  lemma KernelVectorExists(rows: seq<set<nat>>, c: nat, n: nat) returns (v: set<nat>)
    requires AllBelow(rows, n)
    ensures IsKernelVector(v, rows, c)
  {
    v := {c} + set b: nat | b < n && PairsWith(rows, b, c);
  }

  /** The columns before c selected by x combine to column c exactly when x with c added is a solution. */
  lemma SolutionThrough(cols: seq<set<nat>>, c: nat, x: set<nat>, y: set<nat>)
    requires c < |cols| && c in y && forall b: nat :: b != c ==> (b in y <==> b in x && b < c)
    ensures Combo(cols, y) == {} <==> Combo(cols[..c], x) == cols[c]
  {
    assert cols == cols[..c + 1] + cols[c + 1..];
    ComboConcat(cols[..c + 1], cols[c + 1..], y);
    ComboZero(cols[c + 1..], set k | k in y && k >= c + 1 :: k - (c + 1));
    assert cols[..c + 1][..c] == cols[..c];
    ComboAgree(cols[..c], x, y);
    assert Combo(cols[..c + 1], y) == Xor(Combo(cols[..c], x), cols[c]);
  }

  /** Reading the matrix by rows or by columns gives the same annihilator. */
  lemma TransposeAnnihilates(cols: seq<set<nat>>, numRows: nat, w: set<nat>)
    requires AllBelow(cols, numRows) && Below(w, numRows)
    ensures Combo(RowsOf(cols, numRows), w) == {} <==> Annihilates(w, cols)
  {
    var rows := RowsOf(cols, numRows);
    forall t | 0 <= t < numRows
      ensures Below(rows[t], |cols|)
    {
    }
    ComboBelow(rows, w, |cols|);
    forall c: nat | c < |cols|
      ensures c in Combo(rows, w) <==> Dot(w, cols[c])
    {
      ComboBit(rows, w, c);
      assert Below(cols[c], numRows);
      assert Row(rows, c) == cols[c];
      DotCommutes(cols[c], w);
    }
  }

  // ---------------------------------------------------------------- building and reading the matrix

  /** The matrix with the given columns, one bit set per row. */
  method GetMatrix(cols: seq<set<nat>>, numRows: nat) returns (m: array<set<nat>>)
    requires AllBelow(cols, numRows)
    ensures fresh(m) && m[..] == RowsOf(cols, numRows) && AllBelow(m[..], |cols|)
  {
    m := new set<nat>[numRows](_ => {});
    for c := 0 to |cols|
      invariant forall r :: 0 <= r < numRows ==> m[r] == Row(cols[..c], r)
    {
      for r := 0 to numRows
        invariant forall i :: 0 <= i < r ==> m[i] == Row(cols[..c + 1], i)
        invariant forall i :: r <= i < numRows ==> m[i] == Row(cols[..c], i)
      {
        RowOneMore(cols, c, r);
        if r in cols[c] {
          m[r] := m[r] + {c};
        }
      }
    }
    assert cols[..|cols|] == cols;
  }

  lemma RowOneMore(cols: seq<set<nat>>, c: nat, r: nat)
    requires c < |cols|
    ensures Row(cols[..c + 1], r) == Row(cols[..c], r) + (if r in cols[c] then {c} else {})
  {
  }

  /** The pivots of a reduced matrix. */
  method PivotColumns(rows: seq<set<nat>>, numCols: nat) returns (pivots: set<nat>)
    requires AllBelow(rows, numCols) && Reduced(rows)
    ensures forall c :: c in pivots <==> IsPivotColumn(rows, c)
  {
    pivots := {};
    for r := 0 to |rows|
      invariant forall c :: c in pivots <==> IsPivotColumn(rows[..r], c)
    {
      PivotsOneMore(rows, r);
      assert Below(rows[r], numCols);
      if rows[r] != {} {
        pivots := pivots + {LowestBit(rows[r], numCols)};
      }
    }
    assert rows[..|rows|] == rows;
  }

  lemma PivotsOneMore(rows: seq<set<nat>>, r: nat)
    requires r < |rows|
    ensures forall c :: IsPivotColumn(rows[..r + 1], c) <==> IsPivotColumn(rows[..r], c) || IsPivot(c, rows[r])
  {
  }

  // ---------------------------------------------------------------- free variables

  /** The input bits whose column is a combination of earlier columns. */
  ghost predicate IsFree(cols: seq<set<nat>>, c: nat) {
    c < |cols| && InSpan(cols[c], cols[..c])
  }

  /** The flat position of the first bit of input dimension d, given the bit counts of the dimensions. */
  function DimOffset(sizes: seq<nat>, d: nat): nat
    requires d <= |sizes|
  {
    if d == 0 then 0 else DimOffset(sizes, d - 1) + sizes[d - 1]
  }

  lemma {:induction false} DimOffsetMonotone(sizes: seq<nat>, d: nat, e: nat)
    requires d <= e <= |sizes|
    ensures DimOffset(sizes, d) <= DimOffset(sizes, e)
  {
    if d < e {
      DimOffsetMonotone(sizes, d, e - 1);
    }
  }

  /** One mask per input dimension: bit i is set when the i-th bit of that dimension is free. */
  method GetFreeVariableMasks(sizes: seq<nat>, cols: seq<set<nat>>, numRows: nat) returns (masks: seq<set<nat>>)
    requires AllBelow(cols, numRows) && |cols| == DimOffset(sizes, |sizes|)
    ensures |masks| == |sizes|
    ensures forall d, i: nat :: 0 <= d < |sizes| ==>
      (i in masks[d] <==> i < sizes[d] && IsFree(cols, DimOffset(sizes, d) + i))
  {
    var mat := GetMatrix(cols, numRows);
    InplaceRref(mat, |cols|);
    var basicVars := PivotColumns(mat[..], |cols|);
    forall c: nat | c < |cols|
      ensures c !in basicVars <==> IsFree(cols, c)
    {
      PivotIsNewDirection(cols, numRows, mat[..], c);
    }
    hide IsFree;
    masks := [];
    var c := 0;
    for d := 0 to |sizes|
      invariant c == DimOffset(sizes, d) && |masks| == d
      invariant forall e, i: nat :: 0 <= e < d ==>
        (i in masks[e] <==> i < sizes[e] && IsFree(cols, DimOffset(sizes, e) + i))
    {
      DimOffsetMonotone(sizes, d + 1, |sizes|);
      var mask := FreeMask(basicVars, c, sizes[d], cols);
      c := c + sizes[d];
      masks := masks + [mask];
    }
  }

  /** The free bits among `size` columns from c on. */
  method FreeMask(basicVars: set<nat>, c: nat, size: nat, ghost cols: seq<set<nat>>) returns (mask: set<nat>)
    requires c + size <= |cols| && forall k: nat :: k < |cols| ==> (k !in basicVars <==> IsFree(cols, k))
    ensures forall i: nat :: i in mask <==> i < size && IsFree(cols, c + i)
  {
    mask := {};
    for i := 0 to size
      invariant forall k: nat :: k in mask <==> k < i && IsFree(cols, c + k)
    {
      if c + i !in basicVars {
        mask := mask + {i};
      }
    }
  }

  /** Some equivalent input has no free bit at or above position k. */
  lemma {:induction false} ClearFreeFrom(cols: seq<set<nat>>, x: set<nat>, k: nat) returns (y: set<nat>)
    requires Below(x, |cols|) && k <= |cols|
    requires forall c :: c in x && k <= c ==> !IsFree(cols, c)
    ensures Below(y, |cols|) && Combo(cols, y) == Combo(cols, x)
    ensures forall c :: c in y ==> !IsFree(cols, c)
    decreases k
  {
    if k == 0 {
      y := x;
    } else {
      var c := k - 1;
      if c in x && IsFree(cols, c) {
        var z :| Combo(cols[..c], z) == cols[c];
        var v := (set b | b in z && b < c) + {c};
        SolutionThrough(cols, c, z, v);
        ComboXor(cols, x, v);
        assert forall b :: b in Xor(x, v) && k <= b ==> b in x;
        y := ClearFreeFrom(cols, Xor(x, v), c);
      } else {
        y := ClearFreeFrom(cols, x, c);
      }
    }
  }

  /** A non-zero solution has a free bit: its highest one. */
  lemma SolutionHasFreeBit(cols: seq<set<nat>>, z: set<nat>)
    requires Below(z, |cols|) && z != {} && Combo(cols, z) == {}
    ensures exists c :: c in z && IsFree(cols, c)
  {
    var c := HighestIn(z);
    SolutionThrough(cols, c, z, z);
  }

  lemma HighestIn(z: set<nat>) returns (c: nat)
    requires z != {}
    ensures c in z && forall b :: b in z ==> b <= c
    decreases z
  {
    c :| c in z;
    if z != {c} {
      assert forall b :: b in z ==> b == c || b in z - {c};
      var d := HighestIn(z - {c});
      if c < d {
        c := d;
      }
    }
  }

  /** Two inputs without free bits and with the same output are equal. */
  lemma FreeZeroInputsAreUnique(cols: seq<set<nat>>, x: set<nat>, y: set<nat>)
    requires Below(x, |cols|) && Below(y, |cols|) && Combo(cols, x) == Combo(cols, y)
    requires forall c :: c in x + y ==> !IsFree(cols, c)
    ensures x == y
  {
    ComboXor(cols, x, y);
    if x != y {
      SolutionHasFreeBit(cols, Xor(x, y)) by { assert Xor(x, y) == {} ==> x == y; }
    }
  }

  /** y gives the same output as x and uses no free bit. */
  ghost predicate IsReducedInput(cols: seq<set<nat>>, x: set<nat>, y: set<nat>) {
    Below(y, |cols|) && Combo(cols, y) == Combo(cols, x) && forall c :: c in y ==> !IsFree(cols, c)
  }

  /** Every input has exactly one equivalent input whose free bits are all zero. */
  lemma ExactlyOneReducedInput(cols: seq<set<nat>>, x: set<nat>)
    requires Below(x, |cols|)
    ensures exists y :: IsReducedInput(cols, x, y) && forall z :: IsReducedInput(cols, x, z) ==> z == y
  {
    var y := ClearFreeFrom(cols, x, |cols|);
    assert IsReducedInput(cols, x, y);
    forall z | IsReducedInput(cols, x, z)
      ensures z == y
    {
      FreeZeroInputsAreUnique(cols, z, y);
    }
  }

  /** The bits of x from k on, below n, read as a binary number. */
  ghost function Number(x: set<nat>, k: nat, n: nat): nat
    requires k <= n
    decreases n - k
  {
    if k == n then 0 else (if k in x then 1 else 0) + 2 * Number(x, k + 1, n)
  }

  lemma {:induction false} NumberAgrees(x: set<nat>, y: set<nat>, k: nat, n: nat)
    requires k <= n && forall b :: k <= b < n ==> (b in x <==> b in y)
    ensures Number(x, k, n) == Number(y, k, n)
    decreases n - k
  {
    if k < n {
      NumberAgrees(x, y, k + 1, n);
    }
  }

  /** The highest bit where they differ decides which number is smaller. */
  lemma {:induction false} HighestBitDecides(x: set<nat>, y: set<nat>, c: nat, k: nat, n: nat)
    requires k <= c < n && c in y && c !in x && forall b :: c < b < n ==> (b in x <==> b in y)
    ensures Number(x, k, n) < Number(y, k, n)
    decreases c - k
  {
    if k == c {
      NumberAgrees(x, y, c + 1, n);
    } else {
      HighestBitDecides(x, y, c, k + 1, n);
    }
  }

  /** An input without free bits is smaller than every other input with the same output. */
  lemma ReducedInputIsSmaller(cols: seq<set<nat>>, y: set<nat>, z: set<nat>)
    requires Below(y, |cols|) && Below(z, |cols|) && Combo(cols, y) == Combo(cols, z) && y != z
    requires forall c :: c in y ==> !IsFree(cols, c)
    ensures Number(y, 0, |cols|) < Number(z, 0, |cols|)
  {
    var w := Xor(y, z);
    assert w != {} by { assert Xor(y, z) == {} ==> y == z; }
    ComboXor(cols, y, z);
    var c := HighestIn(w);
    SolutionThrough(cols, c, w, w);
    assert IsFree(cols, c);
    forall b | c < b < |cols|
      ensures b in y <==> b in z
    {
      assert b !in w;
    }
    HighestBitDecides(y, z, c, 0, |cols|);
  }

  /** y is the smallest input with the output of x. */
  ghost predicate IsSmallestInput(cols: seq<set<nat>>, x: set<nat>, y: set<nat>) {
    && Below(y, |cols|) && Combo(cols, y) == Combo(cols, x)
    && forall z :: Below(z, |cols|) && Combo(cols, z) == Combo(cols, x) ==>
         Number(y, 0, |cols|) <= Number(z, 0, |cols|)
  }

  /** Leaving the free bits zero is the same as choosing the smallest of all equivalent inputs. */
  lemma ReducedIsSmallest(cols: seq<set<nat>>, x: set<nat>, y: set<nat>)
    requires Below(x, |cols|)
    ensures IsReducedInput(cols, x, y) <==> IsSmallestInput(cols, x, y)
  {
    hide IsFree, Combo;
    if IsReducedInput(cols, x, y) {
      forall z | Below(z, |cols|) && Combo(cols, z) == Combo(cols, x)
        ensures Number(y, 0, |cols|) <= Number(z, 0, |cols|)
      {
        if z != y {
          ReducedInputIsSmaller(cols, y, z);
        }
      }
    }
    if IsSmallestInput(cols, x, y) {
      var r := ClearFreeFrom(cols, x, |cols|);
      if r != y {
        ReducedInputIsSmaller(cols, r, y);
      }
    }
  }

  // ---------------------------------------------------------------- rank

  ghost predicate Onto(cols: seq<set<nat>>, numRows: nat) {
    forall y :: Below(y, numRows) ==> InSpan(y, cols)
  }

  /** A layout is onto exactly when the rows of its matrix are independent. */
  lemma OntoIffRowsIndependent(cols: seq<set<nat>>, numRows: nat)
    requires AllBelow(cols, numRows)
    ensures Onto(cols, numRows) <==> Independent(RowsOf(cols, numRows))
  {
    var rows := RowsOf(cols, numRows);
    if Onto(cols, numRows) {
      forall w | Below(w, numRows) && Combo(rows, w) == {}
        ensures w == {}
      {
        TransposeAnnihilates(cols, numRows, w);
        if t :| t in w {
          assert Below({t}, numRows);
          var x :| Combo(cols, x) == {t};
          AnnihilatesSpan(w, cols, x);
          DotUnit(w, t);
        }
      }
    } else {
      var y :| Below(y, numRows) && !InSpan(y, cols);
      forall k | 0 <= k < |cols|
        ensures cols[k] <= Upto(numRows)
      {
        assert Below(cols[k], numRows);
      }
      var w := SeparatingFunctional(cols, y, Upto(numRows));
      TransposeAnnihilates(cols, numRows, w);
      assert w != {} by { if w == {} { EmptyDot(w, y); } }
    }
  }

  /** The rows of a reduced matrix are independent exactly when none is zero. */
  lemma ReducedIndependent(rows: seq<set<nat>>)
    requires Reduced(rows)
    ensures Independent(rows) <==> forall r :: 0 <= r < |rows| ==> rows[r] != {}
  {
    if Independent(rows) {
      forall r | 0 <= r < |rows|
        ensures rows[r] != {}
      {
        ComboUnit(rows, r);
        assert Below({r}, |rows|);
      }
    }
    if forall r :: 0 <= r < |rows| ==> rows[r] != {} {
      forall x: set<nat> | Below(x, |rows|) && Combo(rows, x) == {}
        ensures x == {}
      {
        if k :| k in x {
          var p := LowestIn(rows[k]);
          ComboBit(rows, x, p);
          assert Row(rows, p) == {k};
          DotUnit(x, k);
        }
      }
    }
  }

  /** The number of non-zero rows after reduction, which counts the columns that are not free. */
  method GetMatrixRank(cols: seq<set<nat>>, numRows: nat) returns (rank: nat)
    requires AllBelow(cols, numRows)
    ensures rank == |set c | c in Upto(|cols|) && !IsFree(cols, c)|
    ensures rank <= numRows && (rank == numRows <==> Onto(cols, numRows))
  {
    var m := GetMatrix(cols, numRows);
    InplaceRref(m, |cols|);
    var rows := m[..];
    rank := 0;
    ghost var pivots: set<nat> := {};
    for i := 0 to numRows
      invariant rank == |pivots| <= i && forall c: nat :: c in pivots <==> IsPivotColumn(rows[..i], c)
      invariant rank == i <==> forall r :: 0 <= r < i ==> rows[r] != {}
    {
      PivotsOneMore(rows, i);
      assert Below(rows[i], |cols|);
      if rows[i] != {} {
        var p := LowestBit(rows[i], |cols|);
        PivotIsFresh(rows, i, p);
        rank := rank + 1;
        pivots := pivots + {p};
      }
    }
    assert rows[..numRows] == rows;
    forall c: nat | c < |cols|
      ensures c in pivots <==> !IsFree(cols, c)
    {
      PivotIsNewDirection(cols, numRows, rows, c);
    }
    PivotsInRange(rows, |cols|);
    assert pivots == set c | c in Upto(|cols|) && !IsFree(cols, c);
    ReducedIndependent(rows);
    OntoIffRowsIndependent(cols, numRows);
  }

  lemma PivotIsFresh(rows: seq<set<nat>>, i: nat, p: nat)
    requires Reduced(rows) && i < |rows| && IsPivot(p, rows[i])
    ensures !IsPivotColumn(rows[..i], p)
    ensures forall k :: 0 <= k < |rows| && k != i ==> !IsPivot(p, rows[k])
    ensures forall c :: IsPivot(c, rows[i]) <==> c == p
  {
  }

  lemma PivotsInRange(rows: seq<set<nat>>, n: nat)
    requires AllBelow(rows, n)
    ensures forall c: nat :: IsPivotColumn(rows, c) ==> c < n
  {
  }

  // ---------------------------------------------------------------- least squares

  /** x is the solution of A x = b that leaves every free variable of A zero. */
  ghost predicate IsLeastSolution(A: seq<set<nat>>, b: set<nat>, x: set<nat>) {
    Below(x, |A|) && Combo(A, x) == b && forall c :: c in x ==> !IsFree(A, c)
  }

  /** Solves A X = B column by column; fails when some column of B is outside the image of A. */
  method Lstsq(A: seq<set<nat>>, B: seq<set<nat>>, numRows: nat) returns (r: Option<seq<set<nat>>>)
    requires AllBelow(A, numRows) && AllBelow(B, numRows)
    ensures r.Some? <==> forall j :: 0 <= j < |B| ==> InSpan(B[j], A)
    ensures r.Some? ==> |r.value| == |B| && forall j :: 0 <= j < |B| ==> IsLeastSolution(A, B[j], r.value[j])
  {
    hide RowEquivalent, Reduced, InSpan, IsLeastSolution;
    var numColsA := |A|;
    var combinedMat := GetMatrix(A + B, numRows);
    InplaceRref(combinedMat, |A| + |B|);
    var rows := combinedMat[..];
    var pivotRowOfCol: seq<int> := seq(numColsA, _ => -1);
    for row := 0 to numRows
      invariant |pivotRowOfCol| == numColsA && RecordsPivots(pivotRowOfCol, rows, row)
    {
      assert Below(rows[row], |A| + |B|);
      if rows[row] != {} {
        var c := LowestBit(rows[row], |A| + |B|);
        if c >= numColsA {
          PivotOutsideImage(A, B, numRows, rows, c);
          return None;
        }
        RecordPivot(pivotRowOfCol, rows, row, c);
        pivotRowOfCol := pivotRowOfCol[c := row];
      }
    }
    var x: seq<set<nat>> := [];
    for j := 0 to |B|
      invariant |x| == j && forall k :: 0 <= k < j ==> IsLeastSolution(A, B[k], x[k])
    {
      var column := ReadSolution(A, B, numRows, rows, j, pivotRowOfCol);
      x := x + [column];
    }
    forall j | 0 <= j < |B|
      ensures InSpan(B[j], A)
    {
      LeastSolutionIsInSpan(A, B[j], x[j]);
    }
    return Some(x);
  }

  /** Column j of the solution: the pivot columns whose row has bit j of the right-hand side. */
  method ReadSolution(A: seq<set<nat>>, ghost B: seq<set<nat>>, ghost numRows: nat, rows: seq<set<nat>>, j: nat,
                      pivotRowOfCol: seq<int>) returns (basis: set<nat>)
    requires AllBelow(A, numRows) && AllBelow(B, numRows) && Reduced(rows) && AllBelow(rows, |A| + |B|)
    requires RowEquivalent(RowsOf(A + B, numRows), rows) && j < |B| && |pivotRowOfCol| == |A|
    requires RecordsPivots(pivotRowOfCol, rows, |rows|)
    ensures IsLeastSolution(A, B[j], basis)
  {
    hide RowEquivalent, Reduced, IsLeastSolution;
    basis := {};
    for c := 0 to |A|
      invariant forall b: nat :: b in basis <==> b < c && pivotRowOfCol[b] >= 0 && |A| + j in rows[pivotRowOfCol[b]]
    {
      if pivotRowOfCol[c] != -1 && |A| + j in rows[pivotRowOfCol[c]] {
        basis := basis + {c};
      }
    }
    SolutionColumn(A, B, numRows, rows, j, basis, pivotRowOfCol);
  }

  lemma LeastSolutionIsInSpan(A: seq<set<nat>>, b: set<nat>, x: set<nat>)
    requires IsLeastSolution(A, b, x)
    ensures InSpan(b, A)
  {
  }

  /** The pivots of the first n rows all lie in the table's columns, and the table gives the row of each. */
  ghost predicate RecordsPivots(pivotRowOfCol: seq<int>, rows: seq<set<nat>>, n: nat)
    requires n <= |rows|
  {
    && (forall c :: 0 <= c < |pivotRowOfCol| ==> -1 <= pivotRowOfCol[c] < n)
    && (forall c :: 0 <= c < |pivotRowOfCol| && pivotRowOfCol[c] >= 0 ==> IsPivot(c, rows[pivotRowOfCol[c]]))
    && forall i: nat, c: nat {:trigger IsPivot(c, rows[i])} ::
         i < n && IsPivot(c, rows[i]) ==> c < |pivotRowOfCol| && pivotRowOfCol[c] == i
  }

  lemma RecordPivot(pivotRowOfCol: seq<int>, rows: seq<set<nat>>, n: nat, c: nat)
    requires n < |rows| && RecordsPivots(pivotRowOfCol, rows, n)
    requires Reduced(rows) && IsPivot(c, rows[n]) && c < |pivotRowOfCol|
    ensures RecordsPivots(pivotRowOfCol[c := n], rows, n + 1)
  {
  }

  lemma PivotOutsideImage(A: seq<set<nat>>, B: seq<set<nat>>, numRows: nat, rows: seq<set<nat>>, c: nat)
    requires AllBelow(A, numRows) && AllBelow(B, numRows) && Reduced(rows) && AllBelow(rows, |A| + |B|)
    requires RowEquivalent(RowsOf(A + B, numRows), rows)
    requires |A| <= c < |A| + |B| && IsPivotColumn(rows, c)
    ensures !InSpan(B[c - |A|], A)
  {
    PivotIsNewDirection(A + B, numRows, rows, c);
    forall k | 0 <= k < |A|
      ensures InSpan(A[k], (A + B)[..c])
    {
      assert (A + B)[..c][k] == A[k];
      SpanContains((A + B)[..c], k);
    }
    SpanMonotone(A, (A + B)[..c]);
  }

  lemma SolutionColumn(A: seq<set<nat>>, B: seq<set<nat>>, numRows: nat, rows: seq<set<nat>>, j: nat, x: set<nat>,
                       pivotRowOfCol: seq<int>)
    requires AllBelow(A, numRows) && AllBelow(B, numRows) && Reduced(rows) && AllBelow(rows, |A| + |B|)
    requires RowEquivalent(RowsOf(A + B, numRows), rows) && j < |B| && |pivotRowOfCol| == |A|
    requires RecordsPivots(pivotRowOfCol, rows, |rows|)
    requires forall b: nat :: b in x <==> b < |A| && pivotRowOfCol[b] >= 0 && |A| + j in rows[pivotRowOfCol[b]]
    ensures IsLeastSolution(A, B[j], x)
  {
    hide RowEquivalent, Reduced;
    SolutionIsKernelVector(rows, |A| + j, x, pivotRowOfCol);
    KernelVectorAnnihilates(rows, |A| + j, x + {|A| + j});
    SolutionFromKernel(A, B, numRows, rows, j, x);
    forall b | b in x
      ensures !IsFree(A, b)
    {
      PivotIsNewDirection(A + B, numRows, rows, b);
      assert (A + B)[..b] == A[..b];
    }
  }

  lemma SolutionIsKernelVector(rows: seq<set<nat>>, c: nat, x: set<nat>, pivotRowOfCol: seq<int>)
    requires RecordsPivots(pivotRowOfCol, rows, |rows|) && |pivotRowOfCol| <= c
    requires forall b: nat :: b in x <==> b < |pivotRowOfCol| && pivotRowOfCol[b] >= 0 && c in rows[pivotRowOfCol[b]]
    ensures IsKernelVector(x + {c}, rows, c) && !IsPivotColumn(rows, c)
    ensures forall b :: b in x ==> IsPivotColumn(rows, b)
  {
  }

  lemma SolutionFromKernel(A: seq<set<nat>>, B: seq<set<nat>>, numRows: nat, rows: seq<set<nat>>, j: nat, x: set<nat>)
    requires AllBelow(A, numRows) && AllBelow(B, numRows) && RowEquivalent(RowsOf(A + B, numRows), rows)
    requires j < |B| && Below(x, |A|) && Annihilates(x + {|A| + j}, rows)
    ensures Combo(A, x) == B[j]
  {
    hide RowEquivalent, Combo;
    var v: set<nat> := x + {|A| + j};
    assert Annihilates(v, rows);
    assert AllBelow(A + B, numRows);
    SameAnnihilator(RowsOf(A + B, numRows), rows, v);
    KernelIsZeroCombo(A + B, numRows, v);
    assert Combo(A + B, v) == {};
    ComboBoth(A, B, x, j);
    assert Xor(Combo(A, x), B[j]) == {};
    assert Xor(Combo(A, x), B[j]) == {} ==> Combo(A, x) == B[j];
  }

  lemma ComboBoth(A: seq<set<nat>>, B: seq<set<nat>>, x: set<nat>, j: nat)
    requires j < |B| && Below(x, |A|)
    ensures Combo(A + B, x + {|A| + j}) == Xor(Combo(A, x), B[j])
  {
    hide Combo, Xor;
    var v: set<nat> := x + {|A| + j};
    ComboConcat(A, B, v);
    ComboAgree(A, v, x);
    var y := set k | k in v && k >= |A| :: k - |A|;
    assert y == {j} by {
      assert |A| + j in v && |A| + j - |A| == j;
    }
    ComboUnit(B, j);
  }

  // ---------------------------------------------------------------- null spaces and complements

  /** A basis of the vectors orthogonal to all the given ones. */
  method NullspaceBasis(vectors: seq<set<nat>>, dim: nat) returns (basis: seq<set<nat>>)
    requires AllBelow(vectors, dim)
    ensures AllBelow(basis, dim) && Independent(basis)
    ensures forall v :: Below(v, dim) ==> (InSpan(v, basis) <==> Annihilates(v, vectors))
  {
    var mat := new set<nat>[|vectors|](i requires 0 <= i < |vectors| => vectors[i]);
    assert mat[..] == vectors;
    InplaceRref(mat, dim);
    var rows := mat[..];
    var pivotCols := PivotColumns(rows, dim);
    basis := [];
    ghost var freeCols: seq<nat> := [];
    for freeCol := 0 to dim
      invariant KernelBasisUpTo(rows, basis, freeCols, freeCol)
    {
      if freeCol !in pivotCols {
        var vec := KernelVector(rows, freeCol, dim);
        basis := basis + [vec];
        freeCols := freeCols + [freeCol];
      }
    }
    KernelBasisSpans(vectors, dim, rows, basis, freeCols);
  }

  /** Flips the pivot of every row that has the free column. */
  method KernelVector(rows: seq<set<nat>>, freeCol: nat, dim: nat) returns (vec: set<nat>)
    requires Reduced(rows) && AllBelow(rows, dim) && !IsPivotColumn(rows, freeCol)
    ensures IsKernelVector(vec, rows, freeCol)
  {
    vec := {freeCol};
    for r := 0 to |rows|
      invariant freeCol in vec
      invariant forall b :: b != freeCol ==> (b in vec <==> PairsWith(rows[..r], b, freeCol))
    {
      assert Below(rows[r], dim);
      PairsOneMore(rows, r, freeCol);
      if freeCol in rows[r] {
        var pivot := LowestBit(rows[r], dim);
        PivotIsFresh(rows, r, pivot);
        assert !PairsWith(rows[..r], pivot, freeCol);
        vec := Xor(vec, {pivot});
      }
    }
    assert rows[..|rows|] == rows;
  }

  lemma PairsOneMore(rows: seq<set<nat>>, r: nat, c: nat)
    requires r < |rows|
    ensures forall b ::
      PairsWith(rows[..r + 1], b, c) <==> PairsWith(rows[..r], b, c) || (IsPivot(b, rows[r]) && c in rows[r])
  {
  }

  /** basis holds the kernel vector of each free column below n, in order. */
  ghost predicate KernelBasisUpTo(rows: seq<set<nat>>, basis: seq<set<nat>>, freeCols: seq<nat>, n: nat) {
    && |basis| == |freeCols|
    && (forall k :: 0 <= k < |basis| ==> freeCols[k] < n && IsKernelVector(basis[k], rows, freeCols[k]))
    && (forall k, l :: 0 <= k < l < |freeCols| ==> freeCols[k] < freeCols[l])
    && (forall k :: 0 <= k < |freeCols| ==> !IsPivotColumn(rows, freeCols[k]))
    && forall c: nat :: c < n && !IsPivotColumn(rows, c) ==> c in freeCols
  }

  /** Among the kernel vectors only the k-th has the k-th free column. */
  lemma FreeBitOfCombo(rows: seq<set<nat>>, basis: seq<set<nat>>, freeCols: seq<nat>, n: nat, x: set<nat>, k: nat)
    requires KernelBasisUpTo(rows, basis, freeCols, n) && k < |basis|
    ensures freeCols[k] in Combo(basis, x) <==> k in x
  {
    var c := freeCols[k];
    ComboBit(basis, x, c);
    forall l: nat | l < |basis|
      ensures c in basis[l] <==> l == k
    {
      assert l != k ==> freeCols[l] != c && !PairsWith(rows, c, freeCols[l]);
    }
    assert Row(basis, c) == {k};
    DotUnit(x, k);
  }

  lemma KernelBasisSpans(vectors: seq<set<nat>>, dim: nat, rows: seq<set<nat>>, basis: seq<set<nat>>,
                         freeCols: seq<nat>)
    requires Reduced(rows) && AllBelow(rows, dim) && RowEquivalent(vectors, rows)
    requires KernelBasisUpTo(rows, basis, freeCols, dim)
    ensures AllBelow(basis, dim) && Independent(basis)
    ensures forall v :: Below(v, dim) ==> (InSpan(v, basis) <==> Annihilates(v, vectors))
  {
    forall k | 0 <= k < |basis|
      ensures Below(basis[k], dim) && Annihilates(basis[k], rows)
    {
      KernelVectorAnnihilates(rows, freeCols[k], basis[k]);
    }
    forall x | Below(x, |basis|) && Combo(basis, x) == {}
      ensures x == {}
    {
      if k :| k in x {
        FreeBitOfCombo(rows, basis, freeCols, dim, x, k);
      }
    }
    forall v | Below(v, dim)
      ensures InSpan(v, basis) <==> Annihilates(v, vectors)
    {
      SameAnnihilator(vectors, rows, v);
      if InSpan(v, basis) {
        var x :| Combo(basis, x) == v;
        ComboAnnihilates(basis, rows, x);
      }
      if Annihilates(v, rows) {
        KernelVectorIsCombo(dim, rows, basis, freeCols, v);
      }
    }
  }

  lemma XorAnnihilates(u: set<nat>, v: set<nat>, rows: seq<set<nat>>)
    requires Annihilates(u, rows) && Annihilates(v, rows)
    ensures Annihilates(Xor(u, v), rows)
  {
    hide Dot, Xor;
    forall r | 0 <= r < |rows|
      ensures !Dot(Xor(u, v), rows[r])
    {
      DotXor(rows[r], u, v);
    }
  }

  lemma ZeroAnnihilates(rows: seq<set<nat>>)
    ensures Annihilates({}, rows)
  {
  }

  lemma {:induction false} ComboAnnihilates(basis: seq<set<nat>>, rows: seq<set<nat>>, x: set<nat>)
    requires forall k :: 0 <= k < |basis| ==> Annihilates(basis[k], rows)
    ensures Annihilates(Combo(basis, x), rows)
  {
    hide Annihilates, Xor;
    ZeroAnnihilates(rows);
    if basis != [] {
      var n := |basis| - 1;
      ComboAnnihilates(basis[..n], rows, x);
      XorAnnihilates(Combo(basis[..n], x), if n in x then basis[n] else {}, rows);
    }
  }

  lemma KernelVectorIsCombo(dim: nat, rows: seq<set<nat>>, basis: seq<set<nat>>, freeCols: seq<nat>, v: set<nat>)
    requires Reduced(rows) && KernelBasisUpTo(rows, basis, freeCols, dim) && AllBelow(basis, dim)
    requires forall k :: 0 <= k < |basis| ==> Annihilates(basis[k], rows)
    requires Below(v, dim) && Annihilates(v, rows)
    ensures InSpan(v, basis)
  {
    var x := set k: nat | k < |freeCols| && freeCols[k] in v;
    var u := Combo(basis, x);
    var y := Xor(v, u);
    ComboAnnihilates(basis, rows, x);
    ComboBelow(basis, x, dim);
    forall r | 0 <= r < |rows|
      ensures !Dot(y, rows[r])
    {
      DotXor(rows[r], v, u);
    }
    forall b | b in y
      ensures IsPivotColumn(rows, b)
    {
      if !IsPivotColumn(rows, b) {
        var k :| 0 <= k < |freeCols| && freeCols[k] == b;
        FreeBitOfCombo(rows, basis, freeCols, dim, x, k);
      }
    }
    PivotOnlySolutionIsZero(rows, y);
    assert u == v;
  }
}
