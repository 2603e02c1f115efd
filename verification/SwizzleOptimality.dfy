/** How good swizzle segments are: no choice does better on its worse side, and when none does better in all. */
module SwizzleOptimality {
  import opened Basics
  import opened GF2
  import opened Swizzling
  import opened Dimension

  // ---------------------------------------------------------------- the least number of conflicts

  /** The number of shared dimensions that independent vectors cannot avoid. */
  lemma BankIsMet(vs: seq<set<nat>>, bank: seq<set<nat>>, dim: nat, r: seq<set<nat>>)
    requires AllBelow(vs, dim) && Independent(vs) && UnitsOrZero(bank) && AllBelow(bank, dim)
    requires IsIntersectionBasis(r, vs, bank)
    ensures |r| + dim >= |vs| + |UnitBits(bank, dim)|
  {
    hide Upto;
    var S, U := UnitBits(bank, dim), Upto(dim);
    forall k | 0 <= k < |vs|
      ensures vs[k] <= U
    {
      assert Below(vs[k], dim);
    }
    forall v | v <= S && InSpan(v, vs)
      ensures InSpan(v, r)
    {
      UnitSpan(bank, v);
    }
    MeetAtLeast(vs, S, U, r);
  }

  /**
   * No independent list of n vectors has fewer conflicts than a segment on the worse side, and where
   * source and destination have equally many bits, on either side.
   */
  lemma WorseSideIsLeast(bankSrc: seq<set<nat>>, bankDst: seq<set<nat>>, dim: nat,
                         other: seq<set<nat>>, write: seq<set<nat>>, read: seq<set<nat>>)
    requires UnitsOrZero(bankSrc) && UnitsOrZero(bankDst) && AllBelow(bankSrc, dim) && AllBelow(bankDst, dim)
    requires AllBelow(other, dim) && Independent(other)
    requires IsIntersectionBasis(write, other, bankSrc) && IsIntersectionBasis(read, other, bankDst)
    ensures var S, D := UnitBits(bankSrc, dim), UnitBits(bankDst, dim);
      var least := Conflicts(S, D, dim, |other|);
      && least <= Max(|write|, |read|)
      && (|S| == |D| ==> least <= |write| && least <= |read|)
  {
    hide Upto, Independent, IsIntersectionBasis;
    BankIsMet(other, bankSrc, dim, write);
    BankIsMet(other, bankDst, dim, read);
    FreeAndPairs(UnitBits(bankSrc, dim), UnitBits(bankDst, dim), dim);
  }

  // ---------------------------------------------------------------- when the total is least

  /** Vectors that could stand in for a segment: independent, and free of the bits both tiles share. */
  ghost predicate IsCandidate(vs: seq<set<nat>>, S: set<nat>, D: set<nat>, dim: nat, n: nat) {
    AllBelow(vs, dim) && Independent(vs) && |vs| == n && forall k :: 0 <= k < |vs| ==> vs[k] !! (S * D)
  }

  /** Every candidate has at least `total` conflicts, reads and writes together. */
  ghost predicate TotalAtLeast(total: nat, bankSrc: seq<set<nat>>, bankDst: seq<set<nat>>, dim: nat, n: nat) {
    forall vs, write, read ::
      && IsCandidate(vs, UnitBits(bankSrc, dim), UnitBits(bankDst, dim), dim, n)
      && IsIntersectionBasis(write, vs, bankSrc) && IsIntersectionBasis(read, vs, bankDst)
      ==> |write| + |read| >= total
  }

  /** A candidate with one conflict less on the side with fewer bits: an unpaired bit takes one bit's place. */
  lemma CheaperCandidate(N: seq<set<nat>>, A: seq<set<nat>>, B: seq<set<nat>>, l: nat,
                         n: set<nat>, s: set<nat>, t: set<nat>, dim: nat) returns (vs: seq<set<nat>>)
    requires UnitsOf(N, n, dim) && UnitsOf(A, s, dim) && UnitsOf(B, t, dim)
    requires n !! s && n !! t && s !! t && 0 < l <= |A| < |B|
    ensures UnitsOf(vs, n + s + t, dim) && |vs| == |N| + |A| + l
    ensures |Within(vs, s)| == l - 1 && |Within(vs, t)| == l
  {
    hide Within, DisjointSupports, AllBelow;
    var m := |B| - 1;
    var last := B[m];
    assert B == B[..m] + [last];
    SplitLast(B, t, dim);
    var rest := N + PairSums(A[l - 1..], B[..m][l - 1..|A|]) + A[..l - 1] + B[..m][..l - 1];
    AssembledSegment(N, A, B[..m], l - 1, n, s, t - last, dim);
    vs := rest + [last];
    var T := n + s + (t - last);
    AddLast(rest, T, last, t, n + s + t, dim);
    WithinConcat(rest, [last], s);
    WithinConcat(rest, [last], t);
    SameWithin(rest, t, t - last, T);
    LastWithin(last, s, t);
  }

  lemma SplitLast(B: seq<set<nat>>, t: set<nat>, dim: nat)
    requires UnitsOf(B, t, dim) && B != []
    ensures var m := |B| - 1;
      UnitsOf(B[..m], t - B[m], dim) && B[m] != {} && B[m] <= t && Below(B[m], dim)
  {
  }

  lemma AddLast(vs: seq<set<nat>>, T: set<nat>, last: set<nat>, t: set<nat>, u: set<nat>, dim: nat)
    requires UnitsOf(vs, T, dim) && T !! last && last != {} && Below(last, dim) && T + last <= u
    ensures UnitsOf(vs + [last], u, dim)
  {
  }

  lemma LastWithin(last: set<nat>, s: set<nat>, t: set<nat>)
    requires last != {} && last <= t && s !! t
    ensures Within([last], s) == [] && Within([last], t) == [last]
  {
    assert [last][..0] == [];
  }

  lemma Halves(S: set<nat>, D: set<nat>)
    ensures |S - D| < |D - S| <==> |S| < |D|
  {
    assert S == (S - D) + (S * D) && D == (D - S) + (S * D);
  }

  /** Where one side has fewer bits and conflicts are left, some candidate has one conflict less there. */
  lemma CheaperExists(S: set<nat>, D: set<nat>, dim: nat, l: nat) returns (vs: seq<set<nat>>)
    requires S <= Upto(dim) && D <= Upto(dim) && |S| < |D| && 0 < l <= |S - D|
    ensures IsCandidate(vs, S, D, dim, |Upto(dim) - S - D| + |S - D| + l) && DisjointSupports(vs)
    ensures |Within(vs, S)| == l - 1 && |Within(vs, D)| == l
  {
    hide *;
    var F, s, t := Upto(dim) - S - D, S - D, D - S;
    var N, A, B := Units(F, dim), Units(s, dim), Units(t, dim);
    RegionsBelow(S, D, dim);
    UnitsOfMembers(N, F, dim);
    UnitsOfMembers(A, s, dim);
    UnitsOfMembers(B, t, dim);
    Halves(S, D);
    vs := CheaperCandidate(N, A, B, l, F, s, t, dim);
    UnitsAreCandidate(vs, S, D, dim);
  }

  lemma RegionsBelow(S: set<nat>, D: set<nat>, dim: nat)
    requires S <= Upto(dim) && D <= Upto(dim)
    ensures Below(Upto(dim) - S - D, dim) && Below(S - D, dim) && Below(D - S, dim)
  {
  }

  /** Disjoint vectors without shared bits are a candidate, and only their unshared bits decide where they lie. */
  lemma UnitsAreCandidate(vs: seq<set<nat>>, S: set<nat>, D: set<nat>, dim: nat)
    requires S <= Upto(dim) && D <= Upto(dim) && UnitsOf(vs, Upto(dim) - S - D + (S - D) + (D - S), dim)
    ensures IsCandidate(vs, S, D, dim, |vs|) && DisjointSupports(vs)
    ensures Within(vs, S) == Within(vs, S - D) && Within(vs, D) == Within(vs, D - S)
  {
    hide Upto, Within, Independent, UnitsOf, DisjointSupports, AllBelow;
    var T := Upto(dim) - S - D + (S - D) + (D - S);
    UnitsOfParts(vs, T, dim);
    Regions(S, D, Upto(dim));
    SameWithin(vs, S, S - D, T);
    SameWithin(vs, D, D - S, T);
    SupportsAvoid(vs, T, S * D);
    DisjointIsIndependent(vs);
  }

  /** A segment's length and conflicts fit together: the count is that of its own length. */
  lemma SegmentLength(S: set<nat>, D: set<nat>, dim: nat, len: nat, n: nat)
    requires var pairs, free := Min(|S - D|, |D - S|), |Upto(dim) - S - D|;
      n == Min(len, free + 2 * pairs)
    ensures var pairs, free := Min(|S - D|, |D - S|), |Upto(dim) - S - D|;
      var l := Conflicts(S, D, dim, len);
      l == Conflicts(S, D, dim, n) && (l > 0 ==> n == free + pairs + l && l <= pairs)
  {
    hide Upto;
  }

  /**
   * The segment has the least total of conflicts exactly when the larger tile leaves room for it, one tile's
   * bits contain the other's, or the tiles have equally many bits.
   */
  lemma TotalIsLeastIff(segment: seq<set<nat>>, bankSrc: seq<set<nat>>, bankDst: seq<set<nat>>, dim: nat, len: nat)
    requires UnitsOrZero(bankSrc) && UnitsOrZero(bankDst) && AllBelow(bankSrc, dim) && AllBelow(bankDst, dim)
    requires IsSegment(segment, UnitBits(bankSrc, dim), UnitBits(bankDst, dim), dim, len)
    ensures var S, D := UnitBits(bankSrc, dim), UnitBits(bankDst, dim);
      var conflicts := |Within(segment, S)| + |Within(segment, D)|;
      TotalAtLeast(conflicts, bankSrc, bankDst, dim, |segment|) <==>
      len + Max(|S|, |D|) <= dim || S <= D || D <= S || |S| == |D|
  {
    hide Upto, UnitBits, Within, IsIntersectionBasis, DisjointSupports, Independent, AllBelow, UnitsOrZero;
    var S, D := UnitBits(bankSrc, dim), UnitBits(bankDst, dim);
    var l := Conflicts(S, D, dim, len);
    var n := |segment|;
    BitsUpto(bankSrc, dim);
    BitsUpto(bankDst, dim);
    ConflictCount(S, D, dim, len);
    SegmentLength(S, D, dim, len, n);
    assert |Within(segment, S)| == l && |Within(segment, D)| == l;
    if l == 0 || |S| == |D| {
      NoneIsCheaper(bankSrc, bankDst, dim, n, l);
    } else {
      CheaperTotal(bankSrc, bankDst, dim, n, l);
    }
  }

  lemma NoneIsCheaper(bankSrc: seq<set<nat>>, bankDst: seq<set<nat>>, dim: nat, n: nat, l: nat)
    requires UnitsOrZero(bankSrc) && UnitsOrZero(bankDst) && AllBelow(bankSrc, dim) && AllBelow(bankDst, dim)
    requires var S, D := UnitBits(bankSrc, dim), UnitBits(bankDst, dim);
      l == Conflicts(S, D, dim, n) && (l == 0 || |S| == |D|)
    ensures TotalAtLeast(2 * l, bankSrc, bankDst, dim, n)
  {
    hide UnitBits, IsIntersectionBasis, Independent, AllBelow, UnitsOrZero, Conflicts;
    forall vs, write, read |
      && IsCandidate(vs, UnitBits(bankSrc, dim), UnitBits(bankDst, dim), dim, n)
      && IsIntersectionBasis(write, vs, bankSrc) && IsIntersectionBasis(read, vs, bankDst)
      ensures |write| + |read| >= 2 * l
    {
      WorseSideIsLeast(bankSrc, bankDst, dim, vs, write, read);
    }
  }

  lemma CheaperTotal(bankSrc: seq<set<nat>>, bankDst: seq<set<nat>>, dim: nat, n: nat, l: nat)
    requires UnitsOrZero(bankSrc) && UnitsOrZero(bankDst) && AllBelow(bankSrc, dim) && AllBelow(bankDst, dim)
    requires var S, D := UnitBits(bankSrc, dim), UnitBits(bankDst, dim);
      var pairs, free := Min(|S - D|, |D - S|), |Upto(dim) - S - D|;
      |S| != |D| && 0 < l <= pairs && n == free + pairs + l
    ensures !TotalAtLeast(2 * l, bankSrc, bankDst, dim, n)
  {
    hide Upto, Within, DisjointSupports, Independent, UnitsOrZero, UnitBits;
    hide TotalAtLeast, IsIntersectionBasis, IsCandidate;
    var S, D, U := UnitBits(bankSrc, dim), UnitBits(bankDst, dim), Upto(dim);
    BitsUpto(bankSrc, dim);
    BitsUpto(bankDst, dim);
    Halves(S, D);
    Halves(D, S);
    assert U - S - D == U - D - S && S * D == D * S;
    var vs;
    if |S| < |D| {
      vs := CheaperExists(S, D, dim, l);
    } else {
      vs := CheaperExists(D, S, dim, l);
      SharedBitsCommute(vs, S, D, dim, n);
    }
    WithinIsBasis(vs, bankSrc, dim);
    WithinIsBasis(vs, bankDst, dim);
    Refutes(2 * l, bankSrc, bankDst, dim, n, vs, Within(vs, S), Within(vs, D));
  }

  lemma BitsUpto(us: seq<set<nat>>, dim: nat)
    ensures UnitBits(us, dim) <= Upto(dim)
  {
  }

  lemma SharedBitsCommute(vs: seq<set<nat>>, S: set<nat>, D: set<nat>, dim: nat, n: nat)
    requires IsCandidate(vs, D, S, dim, n)
    ensures IsCandidate(vs, S, D, dim, n)
  {
    assert S * D == D * S;
  }

  lemma WithinIsBasis(vs: seq<set<nat>>, bank: seq<set<nat>>, dim: nat)
    requires DisjointSupports(vs) && UnitsOrZero(bank) && AllBelow(bank, dim)
    ensures IsIntersectionBasis(Within(vs, UnitBits(bank, dim)), vs, bank)
  {
    hide Within, Independent, InSpan, DisjointSupports;
    BitsOfUnits(bank, dim);
    WithinIsIntersection(vs, bank, UnitBits(bank, dim));
  }

  lemma Refutes(total: nat, bankSrc: seq<set<nat>>, bankDst: seq<set<nat>>, dim: nat, n: nat,
                vs: seq<set<nat>>, write: seq<set<nat>>, read: seq<set<nat>>)
    requires IsCandidate(vs, UnitBits(bankSrc, dim), UnitBits(bankDst, dim), dim, n)
    requires IsIntersectionBasis(write, vs, bankSrc) && IsIntersectionBasis(read, vs, bankDst)
    requires |write| + |read| < total
    ensures !TotalAtLeast(total, bankSrc, bankDst, dim, n)
  {
    hide IsCandidate, IsIntersectionBasis, UnitBits;
  }

  /** The unit vectors of the bits below n. */
  function FirstUnits(n: nat): seq<set<nat>> {
    seq(n, i requires 0 <= i => {i})
  }

  /**
   * An input with more conflicts than needed.  The lanes of the source hold bits 0 to 5 and the only lane of the
   * destination that is not broadcast holds bit 6: the segment has a conflict each way where one in all is enough.
   */
  lemma TotalIsNotLeast()
    ensures var src: seq<set<nat>>, dst: seq<set<nat>> := FirstUnits(6), [{6}, {}, {}, {}, {}, {}];
      var segment: seq<set<nat>> := [{6}, {0}];
      && IsSegment(segment, UnitBits(src, 7), UnitBits(dst, 7), 7, 7 - LenBankBasis(0, 32, 7))
      && !TotalAtLeast(2, src, dst, 7, 2)
  {
    hide TotalAtLeast, UnitBits, IsSegment, Upto, Within, IsIntersectionBasis, LenBankBasis, FirstUnits;
    var src: seq<set<nat>>, dst: seq<set<nat>> := FirstUnits(6), [{6}, {}, {}, {}, {}, {}];
    FiveBankBits();
    FirstUnitBits(6, 7);
    LastUnitBit(dst);
    SevenBits(Upto(6), {6});
    CheaperTotal(src, dst, 7, 2, 1);
  }

  lemma FiveBankBits()
    ensures LenBankBasis(0, 32, 7) == 5
  {
    assert Pow(2, 0) * 32 == 32 && BANK_BITS / 32 == 32;
    assert Log2(32) == 1 + Log2(16) && Log2(16) == 1 + Log2(8) && Log2(8) == 1 + Log2(4) && Log2(4) == 2;
  }

  lemma FirstUnitBits(n: nat, dim: nat)
    requires n <= dim
    ensures UnitBits(FirstUnits(n), dim) == Upto(n)
    ensures UnitsOrZero(FirstUnits(n)) && AllBelow(FirstUnits(n), dim)
  {
    var us := FirstUnits(n);
    forall b: nat
      ensures {b} in us <==> b < n
    {
      if b < n {
        assert us[b] == {b};
      }
    }
  }

  lemma LastUnitBit(us: seq<set<nat>>)
    requires us == [{6}, {}, {}, {}, {}, {}]
    ensures UnitBits(us, 7) == {6} && UnitsOrZero(us) && AllBelow(us, 7)
  {
    assert us[0] == {6};
  }

  lemma SevenBits(S: set<nat>, D: set<nat>)
    requires S == Upto(6) && D == {6}
    ensures |Upto(7) - S - D| == 0 && |S - D| == 6 && |D - S| == 1 && |S| == 6 && |D| == 1
    ensures IsSegment([{6}, {0}], S, D, 7, 2)
  {
    hide Upto, Within;
    assert Upto(7) - S - D == {};
    assert S - D == S && D - S == D;
    WithinTwo({6}, {0}, S);
    WithinTwo({6}, {0}, D);
    assert 0 !in D && 6 !in S && 0 in S;
  }

  lemma WithinTwo(a: set<nat>, b: set<nat>, s: set<nat>)
    ensures Within([a, b], s) == (if a <= s then [a] else []) + (if b <= s then [b] else [])
  {
    WithinConcat([a], [b], s);
    assert [a] + [b] == [a, b];
    assert [a][..0] == [] && [b][..0] == [];
  }

  // ---------------------------------------------------------------- the search over instruction pairs

  lemma {:induction false} UnitBitsSize(us: seq<set<nat>>, dim: nat)
    ensures |UnitBits(us, dim)| <= |us|
  {
    if us == [] {
      assert UnitBits(us, dim) == {};
    } else {
      var n := |us| - 1;
      UnitBitsSize(us[..n], dim);
      assert us == us[..n] + [us[n]];
      var rest := UnitBits(us[..n], dim);
      if b :| b in UnitBits(us, dim) && b !in rest {
        forall c | c in UnitBits(us, dim)
          ensures c in rest + {b}
        {
          assert {c} in us[..n] || {c} == us[n];
          assert {b} == us[n];
          assert {c} == {b} ==> c in {b};
        }
        SubsetSize(UnitBits(us, dim), rest + {b});
      } else {
        SubsetSize(UnitBits(us, dim), rest);
      }
    }
  }

  /** A bank segment takes the vector of one 128-bit access and three more bits, if there are as many. */
  lemma ThreeMoreBits(vectorBits: nat, bitwidth: nat, dim: nat)
    requires vectorBits <= dim && bitwidth > 0 && Pow(2, vectorBits) * bitwidth <= 128
    ensures LenBankBasis(vectorBits, bitwidth, dim) >= Min(3, dim - vectorBits)
  {
    hide Pow, Log2;
    var unit := Pow(2, vectorBits) * bitwidth;
    TimesMonotone(1, Pow(2, vectorBits), bitwidth);
    AtLeastEight(unit, BANK_BITS / unit);
  }

  lemma AtLeastEight(unit: nat, q: nat)
    requires 0 < unit <= 128 && q == BANK_BITS / unit
    ensures Log2(q) >= 3
  {
    ModuloBounds(BANK_BITS, unit);
    if q <= 7 {
      TimesMonotone(q, 7, unit);
    }
    assert Log2(q) == 1 + Log2(q / 2) && Log2(q / 2) == 1 + Log2(q / 2 / 2) && q / 2 / 2 >= 2;
  }

  /**
   * Where the instructions are chosen by their conflicts, the vector is one 128-bit access and the tiles have at
   * most three vectors beside it: no segment has a conflict then.
   */
  lemma TileSearchIsConflictFree(vbasis: seq<set<nat>>, tileSrc: seq<set<nat>>, tileDst: seq<set<nat>>,
                                 bitwidth: nat, dim: nat)
    requires |vbasis| <= dim && bitwidth > 0 && Pow(2, |vbasis|) * bitwidth <= 128
    requires |tileSrc| <= 3 && |tileDst| <= 3
    ensures var len: nat := dim - LenBankBasis(|vbasis|, bitwidth, dim) - |vbasis|;
      Conflicts(UnitBits(vbasis + tileSrc, dim), UnitBits(vbasis + tileDst, dim), dim, len) == 0
  {
    hide UnitBits, Upto, LenBankBasis, Conflicts, Pow;
    var S, D := UnitBits(vbasis + tileSrc, dim), UnitBits(vbasis + tileDst, dim);
    UnitBitsSize(vbasis + tileSrc, dim);
    UnitBitsSize(vbasis + tileDst, dim);
    BitsUpto(vbasis + tileSrc, dim);
    BitsUpto(vbasis + tileDst, dim);
    SubsetSize(S, Upto(dim));
    SubsetSize(D, Upto(dim));
    ThreeMoreBits(|vbasis|, bitwidth, dim);
    ConflictCount(S, D, dim, dim - LenBankBasis(|vbasis|, bitwidth, dim) - |vbasis|);
  }
}
