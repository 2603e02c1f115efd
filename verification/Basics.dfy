/** Small types and facts that several components share. */
module Basics {

  datatype Option<+T> = None | Some(value: T)

  const SIZE_MAX: nat := 0xFFFF_FFFF_FFFF_FFFF

  /** A half-open range of addresses or of operation ids. */
  datatype Interval = Interval(start: nat, end: nat) {
    predicate Intersects(r: Interval) {
      start < r.end && r.start < end
    }
  }

  predicate InBoth(x: nat, i: Interval, j: Interval) {
    i.start <= x < i.end && j.start <= x < j.end
  }

  /** Non-empty intervals intersect when they have a common element. */
  lemma IntersectsMeans(i: Interval, j: Interval)
    requires i.start < i.end && j.start < j.end
    ensures i.Intersects(j) <==> exists x :: InBoth(x, i, j)
  {
    if i.Intersects(j) {
      assert InBoth(Max(i.start, j.start), i, j);
    }
  }

  function Min(a: int, b: int): int {
    if a < b then a else b
  }

  function Max(a: int, b: int): int {
    if a < b then b else a
  }

  predicate NoDup<T(==)>(s: seq<T>) {
    forall i, j :: 0 <= i < j < |s| ==> s[i] != s[j]
  }

  lemma SubsetSize<T>(a: set<T>, b: set<T>)
    requires a <= b
    ensures |a| <= |b| && (a != b ==> |a| < |b|)
  {
    assert b == a + (b - a);
    if a != b {
      var x :| x in b - a;
    }
  }

  /** The numbers below n. */
  ghost function Upto(n: nat): (r: set<nat>)
    ensures |r| == n && forall i: nat :: i in r <==> i < n
  {
    if n == 0 then {} else Upto(n - 1) + {n - 1}
  }

  ghost function Elems<T(!new)>(s: seq<T>): (r: set<T>)
    ensures forall x :: x in r <==> x in s
  {
    set x | x in s
  }

  lemma {:induction false} NoDupSize<T(!new)>(s: seq<T>)
    requires NoDup(s)
    ensures |Elems(s)| == |s|
  {
    if s != [] {
      var n := |s| - 1;
      NoDupSize(s[..n]);
      assert Elems(s) == Elems(s[..n]) + {s[n]};
    }
  }

  // ---------------------------------------------------------------- arithmetic

  lemma TimesMonotone(a: int, b: int, d: int)
    requires a <= b && d >= 0
    ensures a * d <= b * d
  {
  }

  /** The quotient and the remainder are the only numbers with this property. */
  lemma QuotientUnique(x: int, d: int, q: int, r: int)
    requires d > 0 && 0 <= r < d && x == q * d + r
    ensures x / d == q && x % d == r
  {
    var e := x / d - q;
    ModuloBounds(x, d);
    assert e * d == r - x % d by { Distribute(x / d, q, d); }
    if e >= 1 {
      TimesMonotone(1, e, d);
    } else if e <= -1 {
      TimesMonotone(e, -1, d);
    }
  }

  lemma Distribute(a: int, b: int, d: int)
    ensures (a - b) * d == a * d - b * d
  {
  }

  lemma ModuloBounds(x: int, d: int)
    requires d > 0
    ensures 0 <= x % d < d && x == (x / d) * d + x % d
  {
  }

  function Pow(b: nat, e: nat): (r: nat)
    ensures b > 0 ==> r > 0
  {
    if e == 0 then 1 else b * Pow(b, e - 1)
  }

  lemma {:induction false} PowMonotone(b: nat, e: nat, f: nat)
    requires b > 0 && e <= f
    ensures Pow(b, e) <= Pow(b, f)
  {
    if e < f {
      PowMonotone(b, e, f - 1);
      TimesMonotone(1, b, Pow(b, f - 1));
    }
  }
}
