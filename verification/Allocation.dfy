/** Shared-memory allocation: initial placement, first-fit colouring, and the bump loop. */
module Allocation {
  import opened Basics

  // ---------------------------------------------------------------- buffers

  function AlignTo(offset: nat, alignment: nat): (r: nat)
    requires alignment > 0
    ensures offset <= r < offset + alignment && r % alignment == 0
  {
    var q := (offset + alignment - 1) / alignment;
    QuotientUnique(q * alignment, alignment, q, 0);
    q * alignment
  }

  /** The asynchronous-regions operation that encloses a buffer's owner, and the owner's region. */
  datatype Owner = Owner(asyncOp: Option<nat>, region: nat)

  /** A shared-memory buffer: size, alignment, the operation ids at which it is live, and its offset. */
  class Buffer {
    const size: nat
    const alignment: nat
    const range: Interval
    const owner: Owner
    var offset: nat

    ghost predicate Valid() {
      alignment > 0 && range.start < range.end <= SIZE_MAX
    }

    constructor (size: nat, alignment: nat, range: Interval, owner: Owner)
      requires alignment > 0 && range.start < range.end <= SIZE_MAX
      ensures Valid() && offset == 0
      ensures this.size == size && this.alignment == alignment && this.range == range && this.owner == owner
    {
      this.size, this.alignment, this.range, this.owner, offset := size, alignment, range, owner, 0;
    }

    method SetOffsetAligned(newOffset: nat) returns (r: nat)
      requires Valid()
      modifies this`offset
      ensures r == offset == AlignTo(newOffset, alignment)
    {
      offset := AlignTo(newOffset, alignment);
      return offset;
    }
  }

  ghost predicate ValidBuffers(bs: seq<Buffer>) {
    && (forall i :: 0 <= i < |bs| ==> bs[i].Valid())
    && forall i, j :: 0 <= i < j < |bs| ==> bs[i] != bs[j]
  }

  ghost function Offsets(bs: seq<Buffer>): (r: seq<nat>)
    reads bs
    ensures |r| == |bs| && forall i :: 0 <= i < |bs| ==> r[i] == bs[i].offset
  {
    seq(|bs|, i requires 0 <= i < |bs| reads bs => bs[i].offset)
  }

  // ---------------------------------------------------------------- interference

  /** Buffers that may hold data together: live at one operation, or in different regions of one asynchronous one. */
  predicate Together(x: Buffer, y: Buffer) {
    || x.range.Intersects(y.range)
    || (x.owner.asyncOp.Some? && x.owner.asyncOp == y.owner.asyncOp && x.owner.region != y.owner.region)
  }

  predicate SpaceOverlaps(x: Buffer, xOffset: nat, y: Buffer, yOffset: nat) {
    Interval(xOffset, xOffset + x.size).Intersects(Interval(yOffset, yOffset + y.size))
  }

  predicate Interferes(bs: seq<Buffer>, offs: seq<nat>, x: nat, y: nat)
    requires |offs| == |bs| && x < |bs| && y < |bs|
  {
    x != y && Together(bs[x], bs[y]) && SpaceOverlaps(bs[x], offs[x], bs[y], offs[y])
  }

  /** Buffers are kept together when some operation needs both, or when two regions of one operation may run at once. */
  lemma TogetherMeans(x: Buffer, y: Buffer)
    requires x.Valid() && y.Valid()
    ensures Together(x, y) <==>
      || (exists id :: InBoth(id, x.range, y.range))
      || (x.owner.asyncOp.Some? && y.owner.asyncOp.Some? && x.owner.asyncOp.value == y.owner.asyncOp.value
          && x.owner.region != y.owner.region)
  {
    IntersectsMeans(x.range, y.range);
  }

  /** Positions in the buffer list to the positions they interfere with; absent means none. */
  type Graph = map<nat, set<nat>>

  function Neighbors(g: Graph, x: nat): set<nat> {
    if x in g then g[x] else {}
  }

  ghost predicate IsInterferenceGraph(g: Graph, bs: seq<Buffer>, offs: seq<nat>)
    requires |offs| == |bs|
  {
    && (forall x :: x in g ==> g[x] != {})
    && (forall x: nat, y: nat :: y in Neighbors(g, x) ==> x < |bs| && y < |bs|)
    && forall x: nat, y: nat :: x < |bs| && y < |bs| ==> (y in Neighbors(g, x) <==> Interferes(bs, offs, x, y))
  }

  // ---------------------------------------------------------------- colouring and bumping, specified

  ghost predicate ColorTaken(g: Graph, colors: seq<nat>, x: nat, c: nat)
    requires x < |colors|
  {
    exists y: nat :: y in Neighbors(g, x) && y < x && colors[y] == c
  }

  /** Each colour is the least one that no earlier neighbour has. */
  ghost predicate FirstFit(g: Graph, colors: seq<nat>) {
    && (forall x: nat, y: nat :: y < x < |colors| && y in Neighbors(g, x) ==> colors[y] != colors[x])
    && forall x: nat :: x < |colors| ==> forall c :: 0 <= c < colors[x] ==> ColorTaken(g, colors, x, c)
  }

  /** m is the largest end among the buffers ys, and 0 if there is none. */
  ghost predicate IsMaxEnd(m: nat, ys: set<nat>, bs: seq<Buffer>, offs: seq<nat>)
    requires |offs| == |bs| && forall y :: y in ys ==> y < |bs|
  {
    && (forall y :: y in ys ==> offs[y] + bs[y].size <= m)
    && (if ys == {} then m == 0 else exists y :: y in ys && offs[y] + bs[y].size == m)
  }

  /** The offset buffer i has after its turn in a round: buffers are moved in order, each past its neighbours. */
  ghost predicate MovedFrom(bs: seq<Buffer>, g: Graph, colors: seq<nat>, offs: seq<nat>, offs': seq<nat>, i: nat)
    requires ValidBuffers(bs) && |bs| == |colors| == |offs| == |offs'| && i < |bs|
    requires forall x: nat, y: nat :: y in Neighbors(g, x) ==> y < |bs|
  {
    if colors[i] == 0 then offs'[i] == offs[i]
    else exists m :: IsMaxEnd(m, Neighbors(g, i), bs, offs'[..i] + offs[i..]) && offs'[i] == AlignTo(m, bs[i].alignment)
  }

  /** offs' is what one allocation round makes of offs. */
  ghost predicate Bumped(bs: seq<Buffer>, g: Graph, colors: seq<nat>, offs: seq<nat>, offs': seq<nat>)
    requires ValidBuffers(bs) && |bs| == |colors| == |offs| == |offs'|
    requires forall x: nat, y: nat :: y in Neighbors(g, x) ==> y < |bs|
  {
    forall i :: 0 <= i < |bs| ==> MovedFrom(bs, g, colors, offs, offs', i)
  }

  /** size is the largest end of all the buffers. */
  ghost predicate IsPeak(size: nat, bs: seq<Buffer>, offs: seq<nat>)
    requires |offs| == |bs|
  {
    IsMaxEnd(size, Upto(|bs|), bs, offs)
  }

  // ---------------------------------------------------------------- the bump loop terminates

  /** The earlier buffers that buffer i does not yet lie wholly above. */
  ghost function Unpassed(bs: seq<Buffer>, offs: seq<nat>, i: nat): set<nat>
    requires |offs| == |bs| && i < |bs|
  {
    set j | j in Upto(i) && offs[i] < offs[j] + bs[j].size
  }

  function Digits(high: nat, low: nat, base: nat): nat {
    high * base + low
  }

  /** The vector of |Unpassed| counts over the buffer order, read as digits of base |bs| + 1. */
  ghost function Rank(bs: seq<Buffer>, offs: seq<nat>, n: nat): nat
    requires |offs| == |bs| && n <= |bs|
  {
    if n == 0 then 0 else Digits(Rank(bs, offs, n - 1), |Unpassed(bs, offs, n - 1)|, |bs| + 1)
  }

  lemma {:induction false} RankIsLexicographic(bs: seq<Buffer>, offs: seq<nat>, offs': seq<nat>, i: nat, n: nat)
    requires |offs| == |offs'| == |bs| && i < n <= |bs|
    requires forall k :: 0 <= k < i ==> Unpassed(bs, offs', k) == Unpassed(bs, offs, k)
    requires |Unpassed(bs, offs', i)| < |Unpassed(bs, offs, i)|
    ensures Rank(bs, offs', n) < Rank(bs, offs, n)
  {
    hide Unpassed, Digits;
    var high, high' := Rank(bs, offs, n - 1), Rank(bs, offs', n - 1);
    if n == i + 1 {
      RankAgrees(bs, offs, offs', i);
    } else {
      RankIsLexicographic(bs, offs, offs', i, n - 1);
      UnpassedSize(bs, offs', n - 1);
    }
    DigitsDecrease(high', |Unpassed(bs, offs', n - 1)|, high, |Unpassed(bs, offs, n - 1)|, |bs| + 1);
  }

  lemma UnpassedSize(bs: seq<Buffer>, offs: seq<nat>, i: nat)
    requires |offs| == |bs| && i < |bs|
    ensures |Unpassed(bs, offs, i)| <= i
  {
    SubsetSize(Unpassed(bs, offs, i), Upto(i));
  }

  lemma DigitsDecrease(high': nat, low': nat, high: nat, low: nat, base: nat)
    requires (high' < high && low' < base) || (high' == high && low' < low)
    ensures Digits(high', low', base) < Digits(high, low, base)
  {
    if high' < high {
      TimesMonotone(high' + 1, high, base);
    }
  }

  lemma {:induction false} RankAgrees(bs: seq<Buffer>, offs: seq<nat>, offs': seq<nat>, n: nat)
    requires |offs| == |offs'| == |bs| && n <= |bs|
    requires forall k :: 0 <= k < n ==> Unpassed(bs, offs', k) == Unpassed(bs, offs, k)
    ensures Rank(bs, offs', n) == Rank(bs, offs, n)
  {
    hide Digits, Unpassed, Upto;
    if n > 0 {
      RankAgrees(bs, offs, offs', n - 1);
    }
  }

  /** The first buffer that moves in a round passes an earlier buffer that stayed where it was. */
  lemma BumpLowersRank(bs: seq<Buffer>, g: Graph, colors: seq<nat>, offs: seq<nat>, offs': seq<nat>)
    requires ValidBuffers(bs) && |bs| == |colors| == |offs| == |offs'|
    requires IsInterferenceGraph(g, bs, offs) && FirstFit(g, colors) && Bumped(bs, g, colors, offs, offs')
    requires g != map[]
    ensures Rank(bs, offs', |bs|) < Rank(bs, offs, |bs|)
  {
    hide Rank, IsMaxEnd, AlignTo, IsInterferenceGraph, Unpassed;
    GraphInRange(g, bs, offs);
    var i := FirstMover(bs, g, colors, offs);
    assert ColorTaken(g, colors, i, 0);
    var y: nat :| y in Neighbors(g, i) && y < i && colors[y] == 0;
    MoverPasses(bs, g, colors, offs, offs', i, y);
    OffsetsNeverDecrease(bs, g, colors, offs, offs');
    OnePassed(bs, offs, offs', i, y);
    RankIsLexicographic(bs, offs, offs', i, |bs|);
  }

  lemma OnePassed(bs: seq<Buffer>, offs: seq<nat>, offs': seq<nat>, i: nat, y: nat)
    requires |offs| == |offs'| == |bs| && y < i < |bs| && forall k :: 0 <= k < i ==> offs'[k] == offs[k]
    requires offs[i] < offs[y] + bs[y].size <= offs'[i]
    ensures |Unpassed(bs, offs', i)| < |Unpassed(bs, offs, i)|
    ensures forall k :: 0 <= k < i ==> Unpassed(bs, offs', k) == Unpassed(bs, offs, k)
  {
    var before, after := Unpassed(bs, offs, i), Unpassed(bs, offs', i);
    assert y in before && y !in after && after <= before;
    SubsetSize(after, before);
  }

  /** A buffer that moves goes past each earlier neighbour that has stayed where it was. */
  lemma MoverPasses(bs: seq<Buffer>, g: Graph, colors: seq<nat>, offs: seq<nat>, offs': seq<nat>, i: nat, y: nat)
    requires ValidBuffers(bs) && |bs| == |colors| == |offs| == |offs'| && i < |bs|
    requires IsInterferenceGraph(g, bs, offs) && Bumped(bs, g, colors, offs, offs')
    requires y in Neighbors(g, i) && y < i && colors[i] != 0 && colors[y] == 0
    ensures offs[i] < offs[y] + bs[y].size <= offs'[i]
  {
    hide AlignTo;
    assert MovedFrom(bs, g, colors, offs, offs', i);
    assert MovedFrom(bs, g, colors, offs, offs', y);
    var m :| IsMaxEnd(m, Neighbors(g, i), bs, offs'[..i] + offs[i..]) && offs'[i] == AlignTo(m, bs[i].alignment);
    assert (offs'[..i] + offs[i..])[y] == offs[y];
    assert Interferes(bs, offs, i, y);
  }

  /** A round never lowers an offset, and raises exactly those of the buffers without colour 0. */
  lemma OffsetsNeverDecrease(bs: seq<Buffer>, g: Graph, colors: seq<nat>, offs: seq<nat>, offs': seq<nat>)
    requires ValidBuffers(bs) && |bs| == |colors| == |offs| == |offs'|
    requires IsInterferenceGraph(g, bs, offs) && FirstFit(g, colors) && Bumped(bs, g, colors, offs, offs')
    ensures forall i :: 0 <= i < |bs| ==> offs[i] <= offs'[i] && (offs[i] < offs'[i] <==> colors[i] != 0)
  {
    hide IsMaxEnd, AlignTo, IsInterferenceGraph;
    GraphInRange(g, bs, offs);
    forall i | 0 <= i < |bs|
      ensures offs[i] <= offs'[i] && (offs[i] < offs'[i] <==> colors[i] != 0)
    {
      if colors[i] == 0 {
        assert MovedFrom(bs, g, colors, offs, offs', i);
      } else {
        assert ColorTaken(g, colors, i, 0);
        var y: nat :| y in Neighbors(g, i) && y < i && colors[y] == 0;
        MoverPasses(bs, g, colors, offs, offs', i, y);
      }
    }
  }

  lemma FirstMover(bs: seq<Buffer>, g: Graph, colors: seq<nat>, offs: seq<nat>) returns (i: nat)
    requires ValidBuffers(bs) && |bs| == |colors| == |offs|
    requires IsInterferenceGraph(g, bs, offs) && FirstFit(g, colors) && g != map[]
    ensures i < |bs| && colors[i] != 0 && forall k :: 0 <= k < i ==> colors[k] == 0
  {
    var x :| x in g;
    var y :| y in Neighbors(g, x);
    assert Interferes(bs, offs, x, y) && Interferes(bs, offs, y, x);
    assert x in Neighbors(g, y);
    assert colors[x] != colors[y];
    var z := if colors[x] != 0 then x else y;
    i := 0;
    while colors[i] == 0
      invariant i <= z
      invariant forall k :: 0 <= k < i ==> colors[k] == 0
      decreases z - i
    {
      i := i + 1;
    }
  }

  // ---------------------------------------------------------------- the initial placement

  /** A free piece of the plane: from this offset upward, for these operation ids. */
  datatype Triple = Triple(offset: nat, range: Interval)

  ghost predicate Sorted(ts: seq<Triple>) {
    forall i, j :: 0 <= i < j < |ts| ==> ts[i].offset <= ts[j].offset
  }

  /** Inserts behind every triple of the same or a smaller offset. */
  function InsertTriple(ts: seq<Triple>, t: Triple): seq<Triple> {
    if ts == [] || t.offset < ts[0].offset then [t] + ts else [ts[0]] + InsertTriple(ts[1..], t)
  }

  lemma {:induction false} InsertTripleKeeps(ts: seq<Triple>, t: Triple)
    requires Sorted(ts)
    ensures var r := InsertTriple(ts, t);
      Sorted(r) && forall u :: u in r <==> u in ts || u == t
  {
    if ts != [] && ts[0].offset <= t.offset {
      var rest := InsertTriple(ts[1..], t);
      InsertTripleKeeps(ts[1..], t);
      assert ts == [ts[0]] + ts[1..];
      forall k | 0 <= k < |rest|
        ensures ts[0].offset <= rest[k].offset
      {
        assert rest[k] in rest;
      }
    }
  }

  /** The new triple goes behind all triples of its offset, as in a multimap. */
  lemma {:induction false} InsertTripleAt(ts: seq<Triple>, t: Triple) returns (k: nat)
    requires Sorted(ts)
    ensures k <= |ts| && InsertTriple(ts, t) == ts[..k] + [t] + ts[k..]
    ensures forall i :: 0 <= i < |ts| ==> (i < k <==> ts[i].offset <= t.offset)
  {
    if ts == [] || t.offset < ts[0].offset {
      k := 0;
    } else {
      var l := InsertTripleAt(ts[1..], t);
      k := l + 1;
      assert ts[..k] == [ts[0]] + ts[1..][..l] && ts[k..] == ts[1..][l..];
    }
  }

  /** The pieces left of `range` when a buffer live over `x` is put at the bottom of it, ending at `top`. */
  function Split(offset: nat, range: Interval, x: Interval, top: nat): (r: seq<Triple>)
  {
    [Triple(top, Interval(if range.start < x.start then x.start else range.start,
                          if range.end < x.end then range.end else x.end))]
    + (if range.start < x.start then [Triple(offset, Interval(range.start, x.end))] else [])
    + (if x.end < range.end then [Triple(offset, Interval(x.start, range.end))] else [])
  }

  ghost predicate Meets(y: Interval, ts: seq<Triple>) {
    exists t :: t in ts && t.range.Intersects(y)
  }

  /** Every unplaced buffer is live somewhere in a remaining triple, so the map is never empty when it is read. */
  ghost predicate Reachable(bs: seq<Buffer>, unplaced: seq<nat>, ts: seq<Triple>) {
    && InRange(unplaced, |bs|)
    && (forall k :: 0 <= k < |unplaced| ==> Meets(bs[unplaced[k]].range, ts))
    && forall t :: t in ts ==> t.range.start < t.range.end
  }

  lemma SplitCovers(offset: nat, range: Interval, x: Interval, top: nat, y: Interval)
    requires range.start < range.end && x.start < x.end && y.start < y.end
    requires x.Intersects(range)
    ensures y.Intersects(range) ==> Meets(y, Split(offset, range, x, top))
    ensures forall t :: t in Split(offset, range, x, top) ==> t.range.start < t.range.end
  {
  }

  ghost predicate Free(ts: seq<Triple>, o: nat, id: nat) {
    exists t :: t in ts && t.offset == o && t.range.start <= id < t.range.end
  }

  /** After the split the space above the buffer is free while it is live, and below it whatever was free outside. */
  lemma SplitKeepsBase(offset: nat, range: Interval, x: Interval, top: nat, id: nat)
    requires x.Intersects(range) && x.start < x.end && range.start <= id < range.end
    ensures var ts := Split(offset, range, x, top);
      if x.start <= id < x.end then Free(ts, top, id) else Free(ts, offset, id)
  {
    var ts := Split(offset, range, x, top);
    assert ts[0] in ts;
    if id < x.start {
      assert ts[1] in ts;
    } else if id >= x.end {
      assert ts[|ts| - 1] in ts;
    }
  }

  predicate InRange(xs: seq<nat>, n: nat) {
    forall k :: 0 <= k < |xs| ==> xs[k] < n
  }

  predicate Fits(b: Buffer, range: Interval, ts: seq<Triple>) {
    b.range.Intersects(range) && forall t :: t in ts ==> !t.range.Intersects(b.range)
  }

  method FindFit(bs: seq<Buffer>, unplaced: seq<nat>, range: Interval, ts: seq<Triple>) returns (k: nat)
    requires InRange(unplaced, |bs|)
    ensures k <= |unplaced|
    ensures k < |unplaced| ==> Fits(bs[unplaced[k]], range, ts)
    ensures forall m :: 0 <= m < k ==> !Fits(bs[unplaced[m]], range, ts)
  {
    k := 0;
    while k < |unplaced|
      invariant k <= |unplaced|
      invariant forall m :: 0 <= m < k ==> !Fits(bs[unplaced[m]], range, ts)
    {
      var b := bs[unplaced[k]];
      var res := b.range.Intersects(range);
      for i := 0 to |ts|
        invariant res <==> b.range.Intersects(range) && forall t :: t in ts[..i] ==> !t.range.Intersects(b.range)
      {
        res := res && !ts[i].range.Intersects(b.range);
        assert ts[..i + 1] == ts[..i] + [ts[i]];
      }
      assert ts[..|ts|] == ts;
      if res {
        return;
      }
      k := k + 1;
    }
  }

  lemma PlaceKeepsReachable(bs: seq<Buffer>, unplaced: seq<nat>, ts: seq<Triple>, k: nat, top: nat, ts': seq<Triple>)
    requires ValidBuffers(bs) && ts != [] && k < |unplaced| && Reachable(bs, unplaced, ts)
    requires bs[unplaced[k]].range.Intersects(ts[0].range)
    requires var split := Split(ts[0].offset, ts[0].range, bs[unplaced[k]].range, top);
      forall t :: t in ts' <==> t in ts[1..] || t in split
    ensures Reachable(bs, unplaced[..k] + unplaced[k + 1..], ts')
  {
    hide Split;
    var x := bs[unplaced[k]].range;
    assert forall t :: t in ts <==> t == ts[0] || t in ts[1..];
    var rest := unplaced[..k] + unplaced[k + 1..];
    forall m | 0 <= m < |rest|
      ensures rest[m] < |bs| && Meets(bs[rest[m]].range, ts')
    {
      assert rest[m] == unplaced[if m < k then m else m + 1];
      SplitCovers(ts[0].offset, ts[0].range, x, top, bs[rest[m]].range);
    }
    SplitCovers(ts[0].offset, ts[0].range, x, top, x);
  }

  lemma DropKeepsReachable(bs: seq<Buffer>, unplaced: seq<nat>, ts: seq<Triple>)
    requires ts != [] && Reachable(bs, unplaced, ts)
    requires forall k :: 0 <= k < |unplaced| ==> !Fits(bs[unplaced[k]], ts[0].range, ts[1..])
    ensures Reachable(bs, unplaced, ts[1..])
  {
  }

  method InsertAll(tripleMap: seq<Triple>, pieces: seq<Triple>) returns (r: seq<Triple>)
    requires Sorted(tripleMap)
    ensures Sorted(r) && forall t :: t in r <==> t in tripleMap || t in pieces
  {
    r := tripleMap;
    for i := 0 to |pieces|
      invariant Sorted(r) && forall t :: t in r <==> t in tripleMap || t in pieces[..i]
    {
      InsertTripleKeeps(r, pieces[i]);
      r := InsertTriple(r, pieces[i]);
      assert pieces[..i + 1] == pieces[..i] + [pieces[i]];
    }
    assert pieces[..|pieces|] == pieces;
  }

  /** A buffer put at the least aligned offset that is not below `base`. */
  datatype Placement = Placement(buffer: nat, base: nat)

  /** No buffer of C is live together with one outside. */
  ghost predicate LivesApart(bs: seq<Buffer>, C: set<nat>) {
    forall x: nat, y: nat :: x < |bs| && y < |bs| && x in C && y !in C ==> !bs[x].range.Intersects(bs[y].range)
  }

  /** o is the bottom of memory or the end of a placed buffer of C. */
  ghost predicate IsBase(bs: seq<Buffer>, offs: seq<nat>, ps: seq<Placement>, o: nat, C: set<nat>)
    requires |offs| == |bs|
  {
    o == 0 || exists p :: p in ps && p.buffer < |bs| && p.buffer in C && o == offs[p.buffer] + bs[p.buffer].size
  }

  /** The k-th placed buffer stands on the bottom or an earlier buffer, not on ones that only live apart from it. */
  ghost predicate StandsOnOwn(bs: seq<Buffer>, offs: seq<nat>, ps: seq<Placement>, k: nat)
    requires |offs| == |bs| && k < |ps|
  {
    forall C :: LivesApart(bs, C) && ps[k].buffer in C ==> IsBase(bs, offs, ps[..k], ps[k].base, C)
  }

  /**
   * The buffers of ps were placed one after the other, from the bottom up, the first buffer of the list first,
   * each on the bottom or on an earlier one.
   */
  ghost predicate PlacedInTurn(bs: seq<Buffer>, offs: seq<nat>, ps: seq<Placement>)
    requires ValidBuffers(bs) && |offs| == |bs|
  {
    && (forall k :: 0 <= k < |ps| ==> ps[k].buffer < |bs|)
    && (forall k :: 0 <= k < |ps| ==> offs[ps[k].buffer] == AlignTo(ps[k].base, bs[ps[k].buffer].alignment))
    && (forall k :: 0 <= k < |ps| ==> StandsOnOwn(bs, offs, ps, k))
    && (forall j, k :: 0 <= j < k < |ps| ==> ps[j].buffer != ps[k].buffer && ps[j].base <= ps[k].base)
    && (ps != [] ==> ps[0].buffer == 0)
  }

  ghost predicate IsPlaced(ps: seq<Placement>, i: nat) {
    exists p :: p in ps && p.buffer == i
  }

  /** starts is a first placement of all the buffers. */
  ghost predicate IsFirstPlacement(bs: seq<Buffer>, starts: seq<nat>) {
    && ValidBuffers(bs) && |starts| == |bs|
    && exists ps :: PlacedInTurn(bs, starts, ps) && forall i: nat :: i < |bs| ==> IsPlaced(ps, i)
  }

  lemma PlaceOne(bs: seq<Buffer>, offs: seq<nat>, offs': seq<nat>, ps: seq<Placement>, x: nat, base: nat)
    requires ValidBuffers(bs) && |offs| == |offs'| == |bs| && PlacedInTurn(bs, offs, ps) && x < |bs| && !IsPlaced(ps, x)
    requires forall C :: LivesApart(bs, C) && x in C ==> IsBase(bs, offs, ps, base, C)
    requires (forall p :: p in ps ==> p.base <= base) && (ps == [] ==> x == 0)
    requires offs' == offs[x := AlignTo(base, bs[x].alignment)]
    ensures PlacedInTurn(bs, offs', ps + [Placement(x, base)])
  {
    hide AlignTo, IsBase, LivesApart;
    var ps' := ps + [Placement(x, base)];
    NotPlaced(ps, x);
    forall k: nat | k < |ps'|
      ensures StandsOnOwn(bs, offs', ps', k)
    {
      NotPlaced(ps[..if k < |ps| then k else |ps|], x);
      assert ps'[..k] == ps[..k];
      forall C | LivesApart(bs, C) && ps'[k].buffer in C
        ensures IsBase(bs, offs', ps'[..k], ps'[k].base, C)
      {
        assert k < |ps| ==> StandsOnOwn(bs, offs, ps, k);
        BaseStays(bs, offs, offs', ps[..k], x, ps'[k].base, C) by { assert k == |ps| ==> ps[..k] == ps; }
      }
    }
  }

  lemma NotPlaced(ps: seq<Placement>, x: nat)
    ensures IsPlaced(ps, x) <==> exists k :: 0 <= k < |ps| && ps[k].buffer == x
  {
    if IsPlaced(ps, x) {
      var p :| p in ps && p.buffer == x;
      var k :| 0 <= k < |ps| && ps[k] == p;
    }
  }

  lemma BaseStays(bs: seq<Buffer>, offs: seq<nat>, offs': seq<nat>, ps: seq<Placement>, x: nat, o: nat, C: set<nat>)
    requires |offs| == |offs'| == |bs| && x < |bs| && !IsPlaced(ps, x) && IsBase(bs, offs, ps, o, C)
    requires forall i :: 0 <= i < |bs| && i != x ==> offs'[i] == offs[i]
    ensures IsBase(bs, offs', ps, o, C)
  {
  }

  /** The triple starts on the bottom or on a placed buffer, as far as any buffer that meets it is concerned. */
  ghost predicate HasOwnBase(bs: seq<Buffer>, offs: seq<nat>, ps: seq<Placement>, t: Triple, C: set<nat>)
    requires |offs| == |bs|
  {
    (exists y: nat :: y < |bs| && y in C && t.range.Intersects(bs[y].range)) ==> IsBase(bs, offs, ps, t.offset, C)
  }

  /** Every triple has such a base, and lies not below what was placed last. */
  ghost predicate Based(bs: seq<Buffer>, offs: seq<nat>, ps: seq<Placement>, ts: seq<Triple>)
    requires |offs| == |bs|
  {
    && (forall t, C :: t in ts && LivesApart(bs, C) ==> HasOwnBase(bs, offs, ps, t, C))
    && forall t, p :: t in ts && p in ps ==> p.base <= t.offset
  }

  /** Where a buffer that meets a piece was met before. */
  lemma SplitMeets(offset: nat, range: Interval, x: Interval, top: nat, t: Triple, y: Interval)
    requires x.Intersects(range) && t in Split(offset, range, x, top) && t.range.Intersects(y) && y.start < y.end
    ensures if t.offset == offset then range.Intersects(y) || x.Intersects(y) else t.offset == top && x.Intersects(y)
  {
  }

  lemma PlaceKeepsBased(bs: seq<Buffer>, offs: seq<nat>, offs': seq<nat>, ps: seq<Placement>, ts: seq<Triple>, x: nat,
                        top: nat, ts': seq<Triple>)
    requires ValidBuffers(bs) && |offs| == |offs'| == |bs| && x < |bs| && !IsPlaced(ps, x)
    requires ts != [] && Sorted(ts) && Based(bs, offs, ps, ts) && ts[0].range.Intersects(bs[x].range)
    requires var base := ts[0].offset;
      && offs' == offs[x := AlignTo(base, bs[x].alignment)] && top == offs'[x] + bs[x].size
      && forall t :: t in ts' ==> t in ts[1..] || t in Split(base, ts[0].range, bs[x].range, top)
    ensures Based(bs, offs', ps + [Placement(x, ts[0].offset)], ts')
  {
    hide HasOwnBase, LivesApart, AlignTo;
    var base := ts[0].offset;
    var ps' := ps + [Placement(x, base)];
    forall t, C | t in ts' && LivesApart(bs, C)
      ensures HasOwnBase(bs, offs', ps', t, C)
    {
      OwnBaseKept(bs, offs, offs', ps, ts, x, top, t, C);
    }
    forall t, p | t in ts' && p in ps'
      ensures p.base <= t.offset
    {
      assert base <= t.offset;
      assert ts[0] in ts;
    }
  }

  lemma OwnBaseKept(bs: seq<Buffer>, offs: seq<nat>, offs': seq<nat>, ps: seq<Placement>, ts: seq<Triple>, x: nat,
                    top: nat, t: Triple, C: set<nat>)
    requires ValidBuffers(bs) && |offs| == |offs'| == |bs| && x < |bs| && !IsPlaced(ps, x) && LivesApart(bs, C)
    requires ts != [] && Based(bs, offs, ps, ts) && ts[0].range.Intersects(bs[x].range)
    requires (forall i :: 0 <= i < |bs| && i != x ==> offs'[i] == offs[i]) && top == offs'[x] + bs[x].size
    requires t in ts[1..] || t in Split(ts[0].offset, ts[0].range, bs[x].range, top)
    ensures HasOwnBase(bs, offs', ps + [Placement(x, ts[0].offset)], t, C)
  {
    hide Split, Interval.Intersects;
    var p := Placement(x, ts[0].offset);
    var ps' := ps + [p];
    if y: nat :| y < |bs| && y in C && t.range.Intersects(bs[y].range) {
      var u := if t in ts[1..] then t else ts[0];
      assert u in ts && HasOwnBase(bs, offs, ps, u, C);
      if t !in ts[1..] {
        IntersectsCommutes(bs[x].range, ts[0].range);
        SplitMeets(ts[0].offset, ts[0].range, bs[x].range, top, t, bs[y].range);
        IntersectsCommutes(bs[x].range, bs[y].range);
      }
      if t in ts[1..] || t.offset == ts[0].offset {
        BaseStays(bs, offs, offs', ps, x, t.offset, C);
        BaseGrows(bs, offs', ps, p, t.offset, C);
      } else {
        assert x in C && p in ps';
      }
    }
  }

  lemma IntersectsCommutes(a: Interval, b: Interval)
    ensures a.Intersects(b) <==> b.Intersects(a)
  {
  }

  lemma BaseGrows(bs: seq<Buffer>, offs: seq<nat>, ps: seq<Placement>, p: Placement, o: nat, C: set<nat>)
    requires |offs| == |bs| && IsBase(bs, offs, ps, o, C)
    ensures IsBase(bs, offs, ps + [p], o, C)
  {
  }

  /** The room that the buffers of C among the first n placed need when they are stacked, each with its largest gap. */
  ghost function StackSize(bs: seq<Buffer>, ps: seq<Placement>, n: nat, C: set<nat>): nat
    requires ValidBuffers(bs) && n <= |ps| && forall k :: 0 <= k < |ps| ==> ps[k].buffer < |bs|
  {
    if n == 0 then 0
    else
      var b := bs[ps[n - 1].buffer];
      StackSize(bs, ps, n - 1, C) + (if ps[n - 1].buffer in C then b.alignment - 1 + b.size else 0)
  }

  /** Buffers that no other buffer is live together with end within a stack of their own. */
  lemma {:induction false} StackBound(bs: seq<Buffer>, offs: seq<nat>, ps: seq<Placement>, n: nat, C: set<nat>)
    requires ValidBuffers(bs) && |offs| == |bs| && PlacedInTurn(bs, offs, ps) && n <= |ps| && LivesApart(bs, C)
    ensures forall k :: 0 <= k < n && ps[k].buffer in C ==>
      offs[ps[k].buffer] + bs[ps[k].buffer].size <= StackSize(bs, ps, n, C)
  {
    hide AlignTo, IsBase, LivesApart;
    if n > 0 {
      var last := ps[n - 1];
      StackBound(bs, offs, ps, n - 1, C);
      if last.buffer in C {
        assert StandsOnOwn(bs, offs, ps, n - 1);
        BaseBelow(bs, offs, ps, n - 1, last.base, StackSize(bs, ps, n - 1, C), C);
        assert offs[last.buffer] == AlignTo(last.base, bs[last.buffer].alignment);
      }
    }
  }

  lemma BaseBelow(bs: seq<Buffer>, offs: seq<nat>, ps: seq<Placement>, n: nat, base: nat, room: nat, C: set<nat>)
    requires |offs| == |bs| && n <= |ps| && IsBase(bs, offs, ps[..n], base, C)
    requires forall k :: 0 <= k < n && ps[k].buffer < |bs| && ps[k].buffer in C ==>
      offs[ps[k].buffer] + bs[ps[k].buffer].size <= room
    ensures base <= room
  {
    if base != 0 {
      var p :| p in ps[..n] && p.buffer < |bs| && p.buffer in C && base == offs[p.buffer] + bs[p.buffer].size;
      var k :| 0 <= k < n && ps[k] == p;
    }
  }

  /** Where the first placement has no interference, the peak is no larger than a stack of the buffers. */
  lemma UndisturbedPeak(bs: seq<Buffer>, starts: seq<nat>, peak: nat) returns (ps: seq<Placement>)
    requires IsFirstPlacement(bs, starts) && IsPeak(peak, bs, starts)
    ensures PlacedInTurn(bs, starts, ps) && peak <= StackSize(bs, ps, |ps|, Upto(|bs|))
  {
    hide PlacedInTurn, LivesApart;
    ps :| PlacedInTurn(bs, starts, ps) && forall i: nat :: i < |bs| ==> IsPlaced(ps, i);
    TurnInRange(bs, starts, ps);
    AllLiveApart(bs);
    StackBound(bs, starts, ps, |ps|, Upto(|bs|));
    if bs != [] {
      var i :| i in Upto(|bs|) && starts[i] + bs[i].size == peak;
      assert IsPlaced(ps, i);
      NotPlaced(ps, i);
    }
  }

  lemma TurnInRange(bs: seq<Buffer>, offs: seq<nat>, ps: seq<Placement>)
    requires ValidBuffers(bs) && |offs| == |bs| && PlacedInTurn(bs, offs, ps)
    ensures forall k :: 0 <= k < |ps| ==> ps[k].buffer < |bs|
  {
  }

  lemma AllLiveApart(bs: seq<Buffer>)
    ensures LivesApart(bs, Upto(|bs|))
  {
  }

  /** The buffers of ps are placed, those of xs are not and can still be reached through the triples. */
  ghost predicate Starting(bs: seq<Buffer>, offs: seq<nat>, xs: seq<nat>, ts: seq<Triple>, ps: seq<Placement>)
    requires ValidBuffers(bs) && |offs| == |bs|
  {
    && Reachable(bs, xs, ts) && Sorted(ts) && NoDup(xs)
    && PlacedInTurn(bs, offs, ps) && Based(bs, offs, ps, ts)
    && (ps == [] && xs != [] ==> xs[0] == 0 && |ts| == 1 && ts[0] == Triple(0, Interval(0, SIZE_MAX)))
    && forall i: nat :: i < |bs| ==> (i in xs <==> !IsPlaced(ps, i))
  }

  /** Gives every buffer a first offset. */
  method CalculateStarts(bs: seq<Buffer>)
    requires ValidBuffers(bs)
    modifies bs
    ensures forall i :: 0 <= i < |bs| ==> bs[i].offset % bs[i].alignment == 0
    ensures IsFirstPlacement(bs, Offsets(bs))
  {
    hide Starting, Split, Fits, AlignTo, PlacedInTurn, Based, IsPlaced;
    var tripleMap := [Triple(0, Interval(0, SIZE_MAX))];
    var xBuffers: seq<nat> := seq(|bs|, i => i);
    ghost var ps: seq<Placement> := [];
    StartingAtFirst(bs, Offsets(bs), xBuffers, tripleMap);
    while xBuffers != []
      invariant Starting(bs, Offsets(bs), xBuffers, tripleMap, ps)
      decreases |xBuffers|, |tripleMap|
    {
      ghost var offs := Offsets(bs);
      TripleIsLeft(bs, offs, xBuffers, tripleMap, ps);
      var triple := tripleMap[0];
      var rest := tripleMap[1..];
      var k := FindFit(bs, xBuffers, triple.range, rest);
      if k < |xBuffers| {
        var buffer := bs[xBuffers[k]];
        var alignOffset := buffer.SetOffsetAligned(triple.offset);
        var pieces := Split(triple.offset, triple.range, buffer.range, alignOffset + buffer.size);
        var inserted := InsertAll(rest, pieces);
        assert Offsets(bs) == offs[xBuffers[k] := alignOffset];
        PlaceKeepsStarting(bs, offs, Offsets(bs), xBuffers, tripleMap, ps, k, inserted);
        ps := ps + [Placement(xBuffers[k], triple.offset)];
        xBuffers, tripleMap := xBuffers[..k] + xBuffers[k + 1..], inserted;
      } else {
        DropKeepsStarting(bs, offs, xBuffers, tripleMap, ps);
        tripleMap := rest;
      }
    }
    AllStarted(bs, Offsets(bs), tripleMap, ps);
  }

  lemma StartingAtFirst(bs: seq<Buffer>, offs: seq<nat>, xs: seq<nat>, ts: seq<Triple>)
    requires ValidBuffers(bs) && |offs| == |bs|
    requires xs == seq(|bs|, i => i) && ts == [Triple(0, Interval(0, SIZE_MAX))]
    ensures Starting(bs, offs, xs, ts, [])
  {
    forall i | 0 <= i < |bs|
      ensures Meets(bs[i].range, ts) && i in xs
    {
      assert ts[0].range.Intersects(bs[i].range) && xs[i] == i;
    }
  }

  lemma TripleIsLeft(bs: seq<Buffer>, offs: seq<nat>, xs: seq<nat>, ts: seq<Triple>, ps: seq<Placement>)
    requires ValidBuffers(bs) && |offs| == |bs| && Starting(bs, offs, xs, ts, ps) && xs != []
    ensures ts != [] && InRange(xs, |bs|) && Sorted(ts) && Sorted(ts[1..])
  {
    assert Meets(bs[xs[0]].range, ts);
  }

  lemma PlaceKeepsStarting(bs: seq<Buffer>, offs: seq<nat>, offs': seq<nat>, xs: seq<nat>, ts: seq<Triple>,
                           ps: seq<Placement>, k: nat, ts': seq<Triple>)
    requires ValidBuffers(bs) && |offs| == |offs'| == |bs| && Starting(bs, offs, xs, ts, ps) && ts != []
    requires InRange(xs, |bs|)
    requires k < |xs| && xs[k] < |bs| && Fits(bs[xs[k]], ts[0].range, ts[1..]) && Sorted(ts')
    requires forall m :: 0 <= m < k && xs[m] < |bs| ==> !Fits(bs[xs[m]], ts[0].range, ts[1..])
    requires var b := bs[xs[k]];
      && offs' == offs[xs[k] := AlignTo(ts[0].offset, b.alignment)]
      && forall t :: t in ts' <==> t in ts[1..] || t in Split(ts[0].offset, ts[0].range, b.range, offs'[xs[k]] + b.size)
    ensures Starting(bs, offs', xs[..k] + xs[k + 1..], ts', ps + [Placement(xs[k], ts[0].offset)])
  {
    hide Split, Fits, AlignTo, PlacedInTurn, Based, IsPlaced, Reachable;
    var x := xs[k];
    var top := offs'[x] + bs[x].size;
    FitMeets(bs[x], ts[0].range, ts[1..]);
    IntersectsCommutes(bs[x].range, ts[0].range);
    FirstComesFirst(bs, xs, ts, ps, k);
    PlaceKeepsReachable(bs, xs, ts, k, top, ts');
    PlaceOneBased(bs, offs, offs', ps, ts, x);
    PlaceKeepsBased(bs, offs, offs', ps, ts, x, top, ts');
    NowPlaced(ps, xs, k, ts[0].offset, |bs|);
  }

  /** The first triple takes the first buffer of the list. */
  lemma FirstComesFirst(bs: seq<Buffer>, xs: seq<nat>, ts: seq<Triple>, ps: seq<Placement>, k: nat)
    requires ValidBuffers(bs) && InRange(xs, |bs|) && k < |xs| && ts != []
    requires ps == [] && xs != [] ==> xs[0] == 0 && |ts| == 1 && ts[0] == Triple(0, Interval(0, SIZE_MAX))
    requires forall m :: 0 <= m < k && xs[m] < |bs| ==> !Fits(bs[xs[m]], ts[0].range, ts[1..])
    ensures ps == [] ==> xs[k] == 0
  {
    hide Fits;
    if ps == [] && k > 0 {
      FitsAtFirst(bs[xs[0]], ts);
    }
  }

  lemma FitsAtFirst(b: Buffer, ts: seq<Triple>)
    requires b.Valid() && |ts| == 1 && ts[0] == Triple(0, Interval(0, SIZE_MAX))
    ensures Fits(b, ts[0].range, ts[1..])
  {
  }

  lemma DropKeepsStarting(bs: seq<Buffer>, offs: seq<nat>, xs: seq<nat>, ts: seq<Triple>, ps: seq<Placement>)
    requires ValidBuffers(bs) && |offs| == |bs| && Starting(bs, offs, xs, ts, ps) && ts != [] && InRange(xs, |bs|)
    requires forall k :: 0 <= k < |xs| ==> !Fits(bs[xs[k]], ts[0].range, ts[1..])
    ensures Starting(bs, offs, xs, ts[1..], ps)
  {
    hide Fits, PlacedInTurn, Based, IsPlaced, Reachable;
    DropKeepsReachable(bs, xs, ts);
    DropKeepsBased(bs, offs, ps, ts);
    if ps == [] && xs != [] {
      FitsAtFirst(bs[xs[0]], ts);
    }
  }

  lemma AllStarted(bs: seq<Buffer>, offs: seq<nat>, ts: seq<Triple>, ps: seq<Placement>)
    requires ValidBuffers(bs) && |offs| == |bs| && Starting(bs, offs, [], ts, ps)
    ensures PlacedInTurn(bs, offs, ps) && forall i: nat :: i < |bs| ==> IsPlaced(ps, i)
    ensures forall i :: 0 <= i < |bs| ==> offs[i] % bs[i].alignment == 0
  {
    PlacedIsAligned(bs, offs, ps);
  }

  lemma PlaceOneBased(bs: seq<Buffer>, offs: seq<nat>, offs': seq<nat>, ps: seq<Placement>, ts: seq<Triple>, x: nat)
    requires ValidBuffers(bs) && |offs| == |offs'| == |bs| && PlacedInTurn(bs, offs, ps) && x < |bs| && !IsPlaced(ps, x)
    requires ts != [] && Based(bs, offs, ps, ts) && ts[0].range.Intersects(bs[x].range) && (ps == [] ==> x == 0)
    requires offs' == offs[x := AlignTo(ts[0].offset, bs[x].alignment)]
    ensures PlacedInTurn(bs, offs', ps + [Placement(x, ts[0].offset)])
  {
    hide AlignTo, LivesApart, IsBase;
    assert ts[0] in ts;
    forall C | LivesApart(bs, C) && x in C
      ensures IsBase(bs, offs, ps, ts[0].offset, C)
    {
      assert HasOwnBase(bs, offs, ps, ts[0], C);
    }
    PlaceOne(bs, offs, offs', ps, x, ts[0].offset);
  }

  lemma DropKeepsBased(bs: seq<Buffer>, offs: seq<nat>, ps: seq<Placement>, ts: seq<Triple>)
    requires |offs| == |bs| && ts != [] && Based(bs, offs, ps, ts)
    ensures Based(bs, offs, ps, ts[1..])
  {
  }

  lemma NowPlaced(ps: seq<Placement>, xs: seq<nat>, k: nat, base: nat, n: nat)
    requires NoDup(xs) && k < |xs| && forall i: nat :: i < n ==> (i in xs <==> !IsPlaced(ps, i))
    ensures NoDup(xs[..k] + xs[k + 1..])
    ensures forall i: nat :: i < n ==>
      (i in xs[..k] + xs[k + 1..] <==> !IsPlaced(ps + [Placement(xs[k], base)], i))
  {
    var rest, ps' := xs[..k] + xs[k + 1..], ps + [Placement(xs[k], base)];
    assert xs == xs[..k] + [xs[k]] + xs[k + 1..];
    assert Placement(xs[k], base) in ps';
    forall i: nat
      ensures IsPlaced(ps', i) <==> IsPlaced(ps, i) || i == xs[k]
    {
      if IsPlaced(ps, i) {
        var p :| p in ps && p.buffer == i;
        assert p in ps';
      }
    }
  }

  lemma PlacedIsAligned(bs: seq<Buffer>, offs: seq<nat>, ps: seq<Placement>)
    requires ValidBuffers(bs) && |offs| == |bs| && PlacedInTurn(bs, offs, ps)
    ensures forall i: nat :: i < |bs| && IsPlaced(ps, i) ==> offs[i] % bs[i].alignment == 0
  {
    hide AlignTo;
  }

  lemma FitMeets(b: Buffer, range: Interval, ts: seq<Triple>)
    requires Fits(b, range, ts)
    ensures b.range.Intersects(range)
  {
  }

  // ---------------------------------------------------------------- the interference graph

  method BuildInterferenceGraph(bs: seq<Buffer>) returns (interference: Graph)
    ensures IsInterferenceGraph(interference, bs, Offsets(bs))
  {
    interference := map[];
    ghost var offs := Offsets(bs);
    for x := 0 to |bs|
      invariant Offsets(bs) == offs
      invariant forall i :: i in interference ==> interference[i] != {} && i < x
      invariant forall i: nat, j: nat :: i < x ==>
        (j in Neighbors(interference, i) <==> j < |bs| && Interferes(bs, offs, i, j))
    {
      for y := 0 to |bs|
        invariant forall i :: i in interference ==> interference[i] != {} && i < x + 1
        invariant forall i: nat, j: nat :: i < x ==>
          (j in Neighbors(interference, i) <==> j < |bs| && Interferes(bs, offs, i, j))
        invariant forall j: nat :: j in Neighbors(interference, x) <==> j < y && Interferes(bs, offs, x, j)
      {
        if x != y && Together(bs[x], bs[y]) && SpaceOverlaps(bs[x], bs[x].offset, bs[y], bs[y].offset) {
          interference := interference[x := Neighbors(interference, x) + {y}];
        }
      }
    }
  }

  // ---------------------------------------------------------------- colouring

  ghost predicate ColoredUpTo(g: Graph, colors: seq<int>, n: nat)
    requires n <= |colors|
  {
    && (forall x :: 0 <= x < n ==> 0 <= colors[x] <= x)
    && (forall x :: n <= x < |colors| ==> colors[x] == if x == 0 then 0 else -1)
    && (forall x: nat, y: nat :: y < x < n && y in Neighbors(g, x) ==> colors[y] != colors[x])
    && forall x: nat, c: int :: x < n && 0 <= c < colors[x] ==> Taken(g, colors, x, c)
  }

  ghost predicate Taken(g: Graph, colors: seq<int>, x: nat, c: int)
    requires x <= |colors|
  {
    exists y: nat :: y in Neighbors(g, x) && y < x && colors[y] == c
  }

  /** First-fit colouring in buffer order. */
  method Color(bs: seq<Buffer>, interference: Graph, ghost offs: seq<nat>) returns (colors: seq<nat>)
    requires |offs| == |bs| && IsInterferenceGraph(interference, bs, offs)
    ensures |colors| == |bs| && FirstFit(interference, colors)
  {
    var n := |bs|;
    var cs: seq<int> := seq(n, x => if x == 0 then 0 else -1);
    for x := 0 to n
      invariant |cs| == n && ColoredUpTo(interference, cs, x)
    {
      var c := FirstAvailable(cs, Neighbors(interference, x), n, x, interference);
      assert !(x in Neighbors(interference, x)) by { assert !Interferes(bs, offs, x, x); }
      ColorOne(interference, cs, x, c);
      cs := cs[x := c];
    }
    colors := seq(n, x requires 0 <= x < n => cs[x] as nat);
    forall x: nat, c | x < n && 0 <= c < colors[x]
      ensures ColorTaken(interference, colors, x, c)
    {
      assert Taken(interference, cs, x, c);
    }
  }

  ghost predicate Uses(ys: set<nat>, cs: seq<int>, d: int) {
    exists y :: y in ys && y < |cs| && cs[y] == d
  }

  /** The first colour that no coloured neighbour has. */
  method FirstAvailable(cs: seq<int>, ys: set<nat>, n: nat, x: nat, ghost g: Graph) returns (c: nat)
    requires |cs| == n && x < n && ColoredUpTo(g, cs, x)
    requires forall y :: y in ys ==> y < n && y != x
    ensures c <= x
    ensures forall y :: y in ys ==> cs[y] != c
    ensures forall d :: 0 <= d < c ==> Uses(ys, cs, d)
  {
    var available := seq(n, i => true);
    var todo := ys;
    while todo != {}
      invariant todo <= ys && |available| == n
      invariant forall d :: 0 <= d < n ==> (!available[d] <==> Uses(ys - todo, cs, d))
      decreases todo
    {
      var y :| y in todo;
      ghost var was, done := available, ys - todo;
      if cs[y] >= 0 {
        available := available[cs[y] := false];
      }
      todo := todo - {y};
      assert ys - todo == done + {y};
    }
    assert ys - todo == ys && !Uses(ys, cs, x);
    c := 0;
    while !available[c]
      invariant c <= x && forall d :: 0 <= d < c ==> !available[d]
      decreases x - c
    {
      c := c + 1;
    }
  }

  lemma ColorOne(g: Graph, cs: seq<int>, x: nat, c: nat)
    requires x < |cs| && ColoredUpTo(g, cs, x) && c <= x && x !in Neighbors(g, x)
    requires forall y :: y in Neighbors(g, x) ==> y < |cs| && cs[y] != c
    requires forall d :: 0 <= d < c ==> Uses(Neighbors(g, x), cs, d)
    ensures ColoredUpTo(g, cs[x := c], x + 1)
  {
    var cs' := cs[x := c];
    forall k: nat, d: int | k < x + 1 && 0 <= d < cs'[k]
      ensures Taken(g, cs', k, d)
    {
      if k < x {
        assert Taken(g, cs, k, d);
        var y: nat :| y in Neighbors(g, k) && y < k && cs[y] == d;
        assert cs'[y] == d;
      } else {
        assert Uses(Neighbors(g, x), cs, d);
        var y :| y in Neighbors(g, x) && y < |cs| && cs[y] == d;
        assert cs'[y] == d && y < x;
      }
    }
  }

  // ---------------------------------------------------------------- safety of the final offsets

  ghost predicate Aligned(bs: seq<Buffer>, offs: seq<nat>)
    requires ValidBuffers(bs) && |offs| == |bs|
  {
    forall i :: 0 <= i < |bs| ==> offs[i] % bs[i].alignment == 0
  }

  /** One address range ends before the other starts. */
  predicate Apart(x: Buffer, xOffset: nat, y: Buffer, yOffset: nat) {
    xOffset + x.size <= yOffset || yOffset + y.size <= xOffset
  }

  ghost predicate Disjoint(bs: seq<Buffer>, offs: seq<nat>)
    requires |offs| == |bs|
  {
    forall i, j :: 0 <= i < |bs| && 0 <= j < |bs| && i != j && Together(bs[i], bs[j])
      ==> Apart(bs[i], offs[i], bs[j], offs[j])
  }

  /** Disjoint buffers do not interfere, so that a round leaves them where they are. */
  lemma DisjointStays(bs: seq<Buffer>, g: Graph, colors: seq<nat>, offs: seq<nat>, offs': seq<nat>)
    requires ValidBuffers(bs) && |bs| == |colors| == |offs| == |offs'| && Disjoint(bs, offs)
    requires IsInterferenceGraph(g, bs, offs) && FirstFit(g, colors) && Bumped(bs, g, colors, offs, offs')
    ensures offs' == offs
  {
    hide Bumped;
    forall i | 0 <= i < |bs|
      ensures colors[i] == 0
    {
      NoColorTaken(bs, g, colors, offs, i);
    }
    OffsetsNeverDecrease(bs, g, colors, offs, offs');
  }

  lemma NoColorTaken(bs: seq<Buffer>, g: Graph, colors: seq<nat>, offs: seq<nat>, i: nat)
    requires |bs| == |colors| == |offs| && i < |bs| && Disjoint(bs, offs) && IsInterferenceGraph(g, bs, offs)
    ensures !ColorTaken(g, colors, i, 0)
  {
    forall y: nat | y < i
      ensures y !in Neighbors(g, i)
    {
      assert Together(bs[i], bs[y]) ==> Apart(bs[i], offs[i], bs[y], offs[y]);
      assert !Interferes(bs, offs, i, y);
    }
  }

  lemma NoInterferenceIsDisjoint(bs: seq<Buffer>, offs: seq<nat>)
    requires |offs| == |bs| && IsInterferenceGraph(map[], bs, offs)
    ensures Disjoint(bs, offs)
  {
    forall i, j | 0 <= i < |bs| && 0 <= j < |bs| && i != j && Together(bs[i], bs[j])
      ensures Apart(bs[i], offs[i], bs[j], offs[j])
    {
      assert j !in Neighbors(map[], i);
      assert !Interferes(bs, offs, i, j);
    }
  }

  /** The total size of the buffers at positions xs. */
  ghost function TotalSize(bs: seq<Buffer>, xs: set<nat>): nat
    requires forall x :: x in xs ==> x < |bs|
  {
    if xs == {} then 0 else var x :| x in xs; bs[x].size + TotalSize(bs, xs - {x})
  }

  lemma {:induction false} TotalSizeWithout(bs: seq<Buffer>, xs: set<nat>, x: nat)
    requires x in xs && forall y :: y in xs ==> y < |bs|
    ensures TotalSize(bs, xs) == bs[x].size + TotalSize(bs, xs - {x})
  {
    var y :| y in xs && TotalSize(bs, xs) == bs[y].size + TotalSize(bs, xs - {y});
    if y != x {
      TotalSizeWithout(bs, xs - {y}, x);
      TotalSizeWithout(bs, xs - {x}, y);
      assert xs - {y} - {x} == xs - {x} - {y};
    }
  }

  lemma {:induction false} HighestExists(xs: set<nat>, offs: seq<nat>) returns (k: nat)
    requires xs != {} && forall x :: x in xs ==> x < |offs|
    ensures k in xs && forall x :: x in xs ==> offs[x] <= offs[k]
  {
    k :| k in xs;
    if xs != {k} {
      var j := HighestExists(xs - {k}, offs);
      if offs[k] < offs[j] {
        k := j;
      }
    }
  }

  /** Buffers that lie apart below a bound fit side by side below it. */
  lemma {:induction false} ApartFitsBelow(bs: seq<Buffer>, offs: seq<nat>, xs: set<nat>, bound: nat)
    requires |offs| == |bs| && forall x :: x in xs ==> x < |bs| && offs[x] + bs[x].size <= bound
    requires forall x, y :: x in xs && y in xs && x != y ==> Apart(bs[x], offs[x], bs[y], offs[y])
    ensures TotalSize(bs, xs) <= bound
    decreases xs
  {
    if xs != {} {
      var k := HighestExists(xs, offs);
      TotalSizeWithout(bs, xs, k);
      ApartFitsBelow(bs, offs, xs - {k}, if bs[k].size == 0 then bound else offs[k]);
    }
  }

  ghost function LiveAt(bs: seq<Buffer>, id: nat): set<nat> {
    set x | x in Upto(|bs|) && bs[x].range.start <= id < bs[x].range.end
  }

  /** The memory reported is enough for everything live at any one operation. */
  lemma PeakCoversLiveBuffers(bs: seq<Buffer>, offs: seq<nat>, peak: nat, id: nat)
    requires |offs| == |bs| && Disjoint(bs, offs) && IsPeak(peak, bs, offs)
    ensures TotalSize(bs, LiveAt(bs, id)) <= peak
  {
    var xs := LiveAt(bs, id);
    forall x, y | x in xs && y in xs && x != y
      ensures Apart(bs[x], offs[x], bs[y], offs[y])
    {
      assert Together(bs[x], bs[y]);
    }
    ApartFitsBelow(bs, offs, xs, peak);
  }

  // ---------------------------------------------------------------- sorting by size

  function InsertBySize(b: Buffer, bs: seq<Buffer>): seq<Buffer> {
    if bs == [] || b.size >= bs[0].size then [b] + bs else [bs[0]] + InsertBySize(b, bs[1..])
  }

  /** Largest first; buffers of one size keep their order. */
  function SortBySize(bs: seq<Buffer>): seq<Buffer> {
    if bs == [] then [] else InsertBySize(bs[0], SortBySize(bs[1..]))
  }

  lemma {:induction false} InsertBySizeKeeps(b: Buffer, bs: seq<Buffer>)
    ensures multiset(InsertBySize(b, bs)) == multiset{b} + multiset(bs)
  {
    if bs != [] && b.size < bs[0].size {
      InsertBySizeKeeps(b, bs[1..]);
      assert bs == [bs[0]] + bs[1..];
    }
  }

  lemma {:induction false} SortBySizeKeeps(bs: seq<Buffer>)
    ensures multiset(SortBySize(bs)) == multiset(bs)
  {
    if bs != [] {
      SortBySizeKeeps(bs[1..]);
      InsertBySizeKeeps(bs[0], SortBySize(bs[1..]));
      assert bs == [bs[0]] + bs[1..];
    }
  }

  ghost predicate Descending(bs: seq<Buffer>) {
    forall i, j :: 0 <= i < j < |bs| ==> bs[i].size >= bs[j].size
  }

  /** The buffers of one size, in order. */
  function OfSize(bs: seq<Buffer>, size: nat): seq<Buffer> {
    if bs == [] then [] else (if bs[0].size == size then [bs[0]] else []) + OfSize(bs[1..], size)
  }

  ghost predicate AtMost(bs: seq<Buffer>, size: nat) {
    forall k :: 0 <= k < |bs| ==> bs[k].size <= size
  }

  lemma {:induction false} InsertBySizeBound(b: Buffer, bs: seq<Buffer>, size: nat)
    requires b.size <= size && AtMost(bs, size)
    ensures AtMost(InsertBySize(b, bs), size)
  {
    if bs != [] && b.size < bs[0].size {
      InsertBySizeBound(b, bs[1..], size);
    }
  }

  lemma PrependDescends(b: Buffer, bs: seq<Buffer>)
    requires Descending(bs) && AtMost(bs, b.size)
    ensures Descending([b] + bs)
  {
  }

  lemma FirstDescends(bs: seq<Buffer>)
    requires Descending(bs) && bs != []
    ensures Descending(bs[1..]) && AtMost(bs[1..], bs[0].size) && AtMost(bs, bs[0].size)
  {
  }

  lemma {:induction false} InsertBySizeDescends(b: Buffer, bs: seq<Buffer>)
    requires Descending(bs)
    ensures Descending(InsertBySize(b, bs))
  {
    hide Descending, AtMost;
    if bs == [] {
      assert Descending([b] + bs) by { EmptyDescends(bs, b.size); PrependDescends(b, bs); }
    } else {
      FirstDescends(bs);
      if b.size >= bs[0].size {
        AtMostTransitive(bs, bs[0].size, b.size);
        PrependDescends(b, bs);
      } else {
        InsertBySizeDescends(b, bs[1..]);
        InsertBySizeBound(b, bs[1..], bs[0].size);
        PrependDescends(bs[0], InsertBySize(b, bs[1..]));
      }
    }
  }

  lemma EmptyDescends(bs: seq<Buffer>, size: nat)
    requires bs == []
    ensures Descending(bs) && AtMost(bs, size)
  {
  }

  lemma AtMostTransitive(bs: seq<Buffer>, m: nat, n: nat)
    requires AtMost(bs, m) && m <= n
    ensures AtMost(bs, n)
  {
  }

  lemma OfSizeCons(b: Buffer, bs: seq<Buffer>, size: nat)
    ensures OfSize([b] + bs, size) == (if b.size == size then [b] else []) + OfSize(bs, size)
  {
    assert ([b] + bs)[1..] == bs;
  }

  lemma {:induction false} InsertBySizeIsStable(b: Buffer, bs: seq<Buffer>, size: nat)
    ensures OfSize(InsertBySize(b, bs), size) == (if b.size == size then [b] else []) + OfSize(bs, size)
  {
    hide OfSize;
    if bs == [] || b.size >= bs[0].size {
      OfSizeCons(b, bs, size);
    } else {
      InsertBySizeIsStable(b, bs[1..], size);
      OfSizeCons(bs[0], InsertBySize(b, bs[1..]), size);
      OfSizeCons(bs[0], bs[1..], size);
      assert [bs[0]] + bs[1..] == bs;
    }
  }

  /** The result is in descending order of size, and buffers of one size are in their old order. */
  lemma {:induction false} SortBySizeIsStable(bs: seq<Buffer>, size: nat)
    ensures Descending(SortBySize(bs)) && OfSize(SortBySize(bs), size) == OfSize(bs, size)
  {
    if bs != [] {
      SortBySizeIsStable(bs[1..], size);
      InsertBySizeDescends(bs[0], SortBySize(bs[1..]));
      InsertBySizeIsStable(bs[0], SortBySize(bs[1..]), size);
    }
  }

  lemma SortBySizeOrders(bs: seq<Buffer>)
    ensures Descending(SortBySize(bs)) && forall n :: OfSize(SortBySize(bs), n) == OfSize(bs, n)
  {
    hide SortBySize, OfSize;
    SortBySizeIsStable(bs, 0);
    forall n: nat
      ensures OfSize(SortBySize(bs), n) == OfSize(bs, n)
    {
      SortBySizeIsStable(bs, n);
    }
  }

  /** Sorting distinct valid buffers gives distinct valid buffers. */
  lemma SortBySizeValid(bs: seq<Buffer>)
    requires ValidBuffers(bs)
    ensures ValidBuffers(SortBySize(bs))
  {
    var r := SortBySize(bs);
    SortBySizeKeeps(bs);
    forall i | 0 <= i < |r|
      ensures r[i].Valid()
    {
      assert r[i] in multiset(r) && r[i] in bs;
    }
    DistinctMultiset(bs);
    forall i, j | 0 <= i < j < |r|
      ensures r[i] != r[j]
    {
      RepeatedCount(r, i, j);
    }
  }

  lemma RepeatedCount<T>(s: seq<T>, i: nat, j: nat)
    requires i < j < |s|
    ensures s[i] == s[j] ==> multiset(s)[s[i]] >= 2
  {
    assert s == s[..j] + [s[j]] + s[j + 1..];
    assert s[i] in s[..j] by { assert s[..j][i] == s[i]; }
  }

  lemma {:induction false} DistinctMultiset(bs: seq<Buffer>)
    requires forall i, j :: 0 <= i < j < |bs| ==> bs[i] != bs[j]
    ensures forall b :: multiset(bs)[b] <= 1
  {
    if bs != [] {
      DistinctMultiset(bs[1..]);
      assert bs == [bs[0]] + bs[1..];
      assert bs[0] !in bs[1..];
    }
  }

  // ---------------------------------------------------------------- the analysis

  class AllocationAnalysis {
    var sharedMemorySize: nat

    constructor ()
      ensures sharedMemorySize == 0
    {
      sharedMemorySize := 0;
    }

    /** One round: colours the interfering buffers and moves those that did not get colour 0. */
    method Allocate(bs: seq<Buffer>, interference: Graph) returns (colors: seq<nat>)
      requires ValidBuffers(bs) && IsInterferenceGraph(interference, bs, Offsets(bs))
      requires Aligned(bs, Offsets(bs))
      modifies this, bs
      ensures |colors| == |bs| && FirstFit(interference, colors)
      ensures Bumped(bs, interference, colors, old(Offsets(bs)), Offsets(bs))
      ensures Aligned(bs, Offsets(bs)) && IsPeak(sharedMemorySize, bs, Offsets(bs))
    {
      hide IsMaxEnd, AlignTo, FirstFit, IsInterferenceGraph, RoundUpTo, Upto, Bumped, Aligned;
      ghost var offs := Offsets(bs);
      colors := Color(bs, interference, offs);
      sharedMemorySize := 0;
      GraphInRange(interference, bs, offs);
      RoundEnds(bs, interference, colors, offs, offs);
      for x := 0 to |bs|
        invariant RoundUpTo(bs, interference, colors, offs, Offsets(bs), x)
        invariant IsMaxEnd(sharedMemorySize, Upto(x), bs, Offsets(bs))
      {
        var end := BumpBuffer(bs, interference, colors, x, offs, sharedMemorySize);
        sharedMemorySize := if sharedMemorySize < end then end else sharedMemorySize;
      }
      RoundEnds(bs, interference, colors, offs, Offsets(bs));
    }

    /** Moves buffer x above every buffer it interferes with, unless it has colour 0; returns its end. */
    method BumpBuffer(bs: seq<Buffer>, interference: Graph, colors: seq<nat>, x: nat, ghost offs: seq<nat>,
                      ghost peak: nat)
      returns (end: nat)
      requires ValidBuffers(bs) && |bs| == |colors| == |offs| && x < |bs|
      requires forall x: nat, y: nat :: y in Neighbors(interference, x) ==> y < |bs|
      requires RoundUpTo(bs, interference, colors, offs, Offsets(bs), x)
      requires IsMaxEnd(peak, Upto(x), bs, Offsets(bs))
      modifies bs[x]
      ensures RoundUpTo(bs, interference, colors, offs, Offsets(bs), x + 1)
      ensures IsMaxEnd(if peak < end then end else peak, Upto(x + 1), bs, Offsets(bs))
    {
      hide IsMaxEnd, AlignTo, RoundUpTo, Upto;
      ghost var before := Offsets(bs);
      var newOffset := MaxEnd(bs, Neighbors(interference, x));
      if colors[x] != 0 {
        var _ := bs[x].SetOffsetAligned(newOffset);
      }
      ghost var after := Offsets(bs);
      assert after == before[x := after[x]];
      RoundStep(bs, interference, colors, offs, before, after, x, newOffset);
      end := bs[x].offset + bs[x].size;
      PeakStep(peak, bs, before, after, x);
    }

    /** Places the buffers so that no two that may hold data at the same time overlap. */
    method ComputeOffsets(allBuffers: seq<Buffer>) returns (bs: seq<Buffer>, ghost starts: seq<nat>)
      requires ValidBuffers(allBuffers)
      modifies this, allBuffers
      ensures multiset(bs) == multiset(allBuffers) && ValidBuffers(bs)
      ensures Descending(bs) && forall n :: OfSize(bs, n) == OfSize(allBuffers, n)
      ensures IsFirstPlacement(bs, starts) && forall i :: 0 <= i < |bs| ==> starts[i] <= bs[i].offset
      ensures Disjoint(bs, starts) ==> Offsets(bs) == starts
      ensures Disjoint(bs, Offsets(bs)) && Aligned(bs, Offsets(bs)) && IsPeak(sharedMemorySize, bs, Offsets(bs))
    {
      hide PlacedInTurn, IsPlaced, IsFirstPlacement, Disjoint, Descending, OfSize, SortBySize, IsPeak, Rank,
        FirstFit, Bumped, IsInterferenceGraph;
      bs := SortBySize(allBuffers);
      SortBySizeOrders(allBuffers);
      SortBySizeKeeps(allBuffers);
      SortBySizeValid(allBuffers);
      forall i | 0 <= i < |bs|
        ensures bs[i] in allBuffers
      {
        assert bs[i] in multiset(bs);
      }
      CalculateStarts(bs);
      starts := Offsets(bs);
      var interference := BuildInterferenceGraph(bs);
      var first := true;
      while first || interference != map[]
        invariant IsInterferenceGraph(interference, bs, Offsets(bs)) && Aligned(bs, Offsets(bs))
        invariant !first ==> IsPeak(sharedMemorySize, bs, Offsets(bs))
        invariant forall i :: 0 <= i < |bs| ==> starts[i] <= bs[i].offset
        invariant Disjoint(bs, starts) ==> Offsets(bs) == starts
        decreases first, Rank(bs, Offsets(bs), |bs|)
      {
        ghost var offs, g := Offsets(bs), interference;
        var colors := Allocate(bs, interference);
        interference := BuildInterferenceGraph(bs);
        OffsetsNeverDecrease(bs, g, colors, offs, Offsets(bs));
        if Disjoint(bs, offs) {
          DisjointStays(bs, g, colors, offs, Offsets(bs));
        }
        if g != map[] {
          BumpLowersRank(bs, g, colors, offs, Offsets(bs));
        }
        first := false;
      }
      NoInterferenceIsDisjoint(bs, Offsets(bs));
    }
  }

  method MaxEnd(bs: seq<Buffer>, ys: set<nat>) returns (m: nat)
    requires forall y :: y in ys ==> y < |bs|
    ensures IsMaxEnd(m, ys, bs, Offsets(bs))
  {
    m := 0;
    var todo := ys;
    while todo != {}
      invariant todo <= ys && IsMaxEnd(m, ys - todo, bs, Offsets(bs))
      decreases todo
    {
      var y :| y in todo;
      ghost var done := ys - todo;
      if m < bs[y].offset + bs[y].size {
        m := bs[y].offset + bs[y].size;
      }
      todo := todo - {y};
      assert ys - todo == done + {y};
    }
    assert ys - todo == ys;
  }

  /** The state of a round when the buffers below x have had their turn. */
  ghost predicate RoundUpTo(bs: seq<Buffer>, g: Graph, colors: seq<nat>, offs: seq<nat>, offs': seq<nat>, x: nat)
    requires ValidBuffers(bs) && |bs| == |colors| == |offs| == |offs'| && x <= |bs|
    requires forall x: nat, y: nat :: y in Neighbors(g, x) ==> y < |bs|
  {
    && Aligned(bs, offs')
    && (forall i :: x <= i < |bs| ==> offs'[i] == offs[i])
    && forall i :: 0 <= i < x ==> MovedFrom(bs, g, colors, offs, offs', i)
  }

  lemma GraphInRange(g: Graph, bs: seq<Buffer>, offs: seq<nat>)
    requires |offs| == |bs| && IsInterferenceGraph(g, bs, offs)
    ensures forall x: nat, y: nat :: y in Neighbors(g, x) ==> y < |bs|
  {
  }

  lemma RoundEnds(bs: seq<Buffer>, g: Graph, colors: seq<nat>, offs: seq<nat>, offs': seq<nat>)
    requires ValidBuffers(bs) && |bs| == |colors| == |offs| == |offs'|
    requires forall x: nat, y: nat :: y in Neighbors(g, x) ==> y < |bs|
    ensures Aligned(bs, offs) ==> RoundUpTo(bs, g, colors, offs, offs, 0)
    ensures RoundUpTo(bs, g, colors, offs, offs', |bs|) ==> Bumped(bs, g, colors, offs, offs') && Aligned(bs, offs')
    ensures IsMaxEnd(0, Upto(0), bs, offs)
  {
  }

  lemma RoundStep(bs: seq<Buffer>, g: Graph, colors: seq<nat>, offs: seq<nat>, before: seq<nat>, after: seq<nat>,
                  x: nat, m: nat)
    requires ValidBuffers(bs) && |bs| == |colors| == |offs| == |before| == |after| && x < |bs|
    requires forall x: nat, y: nat :: y in Neighbors(g, x) ==> y < |bs|
    requires RoundUpTo(bs, g, colors, offs, before, x)
    requires IsMaxEnd(m, Neighbors(g, x), bs, before)
    requires after == before[x := if colors[x] == 0 then before[x] else AlignTo(m, bs[x].alignment)]
    ensures RoundUpTo(bs, g, colors, offs, after, x + 1)
  {
    hide IsMaxEnd;
    assert before == after[..x] + offs[x..];
    forall i | 0 <= i < x + 1
      ensures MovedFrom(bs, g, colors, offs, after, i)
    {
      if i < x {
        assert MovedFrom(bs, g, colors, offs, before, i);
        assert before[..i] == after[..i];
      }
    }
  }

  lemma PeakStep(peak: nat, bs: seq<Buffer>, before: seq<nat>, after: seq<nat>, x: nat)
    requires |bs| == |before| == |after| && x < |bs|
    requires IsMaxEnd(peak, Upto(x), bs, before) && forall i :: 0 <= i < x ==> after[i] == before[i]
    ensures var end := after[x] + bs[x].size;
      IsMaxEnd(if peak < end then end else peak, Upto(x + 1), bs, after)
  {
  }
}
